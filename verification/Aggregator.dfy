/** Merging several checkpoints into one: page-wise concatenation of their memories,
    relocation of physical addresses and renaming of the processor sections. */
module Aggregator {
  import opened Common
  import opened Text

  const PAGE: nat := 4096

  datatype Item = PAddr(addr: int) | Other(key: string, value: string)

  datatype Section = Section(name: string, items: seq<Item>)

  /** `pages` is the page pointer recorded in the checkpoint, `memory` its uncompressed memory file. */
  datatype Checkpoint = Checkpoint(pages: nat, memory: seq<byte>, sections: seq<Section>, curTick: nat)

  datatype Merged = Merged(memory: seq<byte>, sections: seq<Section>, pagePtr: nat, nextPid: nat, rangeSize: nat, curTick: nat)

  // ---------- memory ----------

  /** What is copied of a checkpoint's memory: whole pages, as far as the file goes. */
  function Copied(c: Checkpoint): seq<byte> { c.memory[..Min(PAGE * c.pages, |c.memory|)] }

  function PagesBefore(cpts: seq<Checkpoint>): nat {
    if cpts == [] then 0 else PagesBefore(cpts[..|cpts| - 1]) + cpts[|cpts| - 1].pages
  }

  function MemoryOf(cpts: seq<Checkpoint>): seq<byte> {
    if cpts == [] then [] else MemoryOf(cpts[..|cpts| - 1]) + Copied(cpts[|cpts| - 1])
  }

  /** The memory file holds every page the checkpoint claims. */
  ghost predicate Full(c: Checkpoint) { PAGE * c.pages <= |c.memory| }

  method CopyPages(c: Checkpoint, before: seq<byte>) returns (out: seq<byte>)
    ensures out == before + Copied(c)
  {
    out := before;
    var x, at := 0, 0;
    while x < c.pages
      invariant 0 <= x <= c.pages && at == Min(PAGE * x, |c.memory|)
      invariant out == before + c.memory[..at]
    {
      var end := Min(at + PAGE, |c.memory|);
      var bytesRead := c.memory[at..end];
      assert c.memory[..end] == c.memory[..at] + bytesRead;
      out := out + bytesRead;
      x, at := x + 1, end;
    }
  }

  lemma {:induction false} MemoryLength(cpts: seq<Checkpoint>)
    ensures |MemoryOf(cpts)| <= PAGE * PagesBefore(cpts)
    ensures |MemoryOf(cpts)| == PAGE * PagesBefore(cpts) <==> forall c :: c in cpts ==> Full(c)
  {
    if cpts != [] {
      var front, last := cpts[..|cpts| - 1], cpts[|cpts| - 1];
      MemoryLength(front);
      assert last in cpts && forall c :: c in cpts <==> c in front || c == last;
    }
  }

  lemma {:induction false} MemoryExtends(cpts: seq<Checkpoint>, i: nat)
    requires i < |cpts|
    ensures MemoryOf(cpts[..i]) + Copied(cpts[i]) <= MemoryOf(cpts)
  {
    if i == |cpts| - 1 {
    } else {
      var front := cpts[..|cpts| - 1];
      MemoryExtends(front, i);
      assert front[..i] == cpts[..i] && front[i] == cpts[i];
    }
  }

  /** The rewritten form of an address of the `i`-th checkpoint. */
  function Relocated(cpts: seq<Checkpoint>, i: nat, addr: int): int
    requires i < |cpts|
  {
    addr + PagesBefore(cpts[..i]) * PAGE
  }

  /** Every byte keeps its contents at the place where the merged memory holds it. */
  lemma ByteIsKept(cpts: seq<Checkpoint>, i: nat, a: nat)
    requires i < |cpts| && a < |Copied(cpts[i])|
    ensures var at := |MemoryOf(cpts[..i])| + a;
            at < |MemoryOf(cpts)| && MemoryOf(cpts)[at] == cpts[i].memory[a]
  {
    MemoryExtends(cpts, i);
    var m := MemoryOf(cpts[..i]) + Copied(cpts[i]);
    assert m[|MemoryOf(cpts[..i])| + a] == Copied(cpts[i])[a];
  }

  /** The rewritten address is that place exactly when no earlier memory file is short. */
  lemma RelocationIsRightIff(cpts: seq<Checkpoint>, i: nat, a: nat)
    requires i < |cpts|
    ensures Relocated(cpts, i, a) == |MemoryOf(cpts[..i])| + a <==> forall c :: c in cpts[..i] ==> Full(c)
  {
    MemoryLength(cpts[..i]);
  }

  /** If all memory files are complete, a rewritten address reads what the original one read. */
  lemma RelocatedReadsSame(cpts: seq<Checkpoint>, i: nat, a: nat)
    requires i < |cpts| && a < PAGE * cpts[i].pages && forall c :: c in cpts ==> Full(c)
    ensures var r := Relocated(cpts, i, a);
            0 <= r < |MemoryOf(cpts)| && a < |cpts[i].memory| && MemoryOf(cpts)[r] == cpts[i].memory[a]
  {
    assert cpts[i] in cpts;
    ByteIsKept(cpts, i, a);
    RelocationIsRightIff(cpts, i, a);
    assert forall c :: c in cpts[..i] ==> c in cpts;
  }

  lemma {:induction false} PagesAdd(cpts: seq<Checkpoint>, i: nat, j: nat)
    requires i < j <= |cpts|
    ensures PagesBefore(cpts[..i]) + cpts[i].pages <= PagesBefore(cpts[..j])
    decreases j
  {
    assert cpts[..j][..j - 1] == cpts[..j - 1];
    if i < j - 1 { PagesAdd(cpts, i, j - 1); }
  }

  /** Addresses inside different checkpoints are never rewritten to the same address. */
  lemma NoAliasing(cpts: seq<Checkpoint>, i: nat, j: nat, a: nat, b: nat)
    requires i < j < |cpts| && a < PAGE * cpts[i].pages
    ensures Relocated(cpts, i, a) < Relocated(cpts, j, b)
  {
    PagesAdd(cpts, i, j);
  }

  // ---------- padding ----------

  /** The least number of pages that is at least `pages` and covers `size` bytes. */
  ghost predicate LeastCover(n: nat, pages: nat, size: int) {
    pages <= n && size <= PAGE * n && (n > pages ==> PAGE * (n - 1) < size)
  }

  lemma NoFewerPages(n: nat, pages: nat, size: int, m: nat)
    requires LeastCover(n, pages, size)
    ensures pages <= m && size <= PAGE * m ==> n <= m
  {
  }

  /** `"".zfill(4096)`: a page of digit zero characters, not of zero bytes. */
  function DummyPage(): seq<byte> { seq(PAGE, _ => 48) }

  function Padding(n: nat): seq<byte> {
    if n == 0 then [] else Padding(n - 1) + DummyPage()
  }

  lemma {:induction false} PaddingIs(n: nat)
    ensures |Padding(n)| == PAGE * n && forall k :: 0 <= k < |Padding(n)| ==> Padding(n)[k] == 48
  {
    if n > 0 { PaddingIs(n - 1); }
  }

  method Pad(memory: seq<byte>, pages: nat, size: int) returns (out: seq<byte>, n: nat)
    ensures LeastCover(n, pages, size)
    ensures out == memory + Padding(n - pages)
  {
    out, n := memory, pages;
    var fileSize := pages * 4 * 1024;
    while fileSize < size
      invariant fileSize == PAGE * n && pages <= n
      invariant n > pages ==> PAGE * (n - 1) < size
      invariant out == memory + Padding(n - pages)
      decreases size - fileSize
    {
      out := out + DummyPage();
      fileSize := fileSize + 4 * 1024;
      n := n + 1;
    }
  }

  // ---------- section names ----------

  predicate StartsWithCpu(s: string) { |s| >= 3 && s[0] == 'c' && s[1] == 'p' && s[2] == 'u' }

  predicate ContainsCpu(s: string) {
    s != "" && (StartsWithCpu(s) || ContainsCpu(s[1..]))
  }

  /** Every occurrence of "cpu" is followed by `tag`. */
  function Renamed(s: string, tag: string): string {
    if s == "" then ""
    else if StartsWithCpu(s) then "cpu" + tag + Renamed(s[3..], tag)
    else [s[0]] + Renamed(s[1..], tag)
  }

  function ZFill(s: string, width: nat): string
    decreases width - |s|
  {
    if |s| >= width then s else ZFill("0" + s, width)
  }

  /** The number of a checkpoint, with as many digits as the largest one has. */
  function Tag(i: nat, n: nat): string
    requires i < n
  {
    ZFill(Digits(i), |Digits(n - 1)|)
  }

  lemma RenamedHead(s: string, tag: string)
    ensures s == "" ==> Renamed(s, tag) == ""
    ensures s != "" ==> Renamed(s, tag) != "" && Renamed(s, tag)[0] == s[0]
  {
  }

  /** A renamed text starts with "cpu" only if the original does. */
  lemma RenamedStart(s: string, tag: string)
    ensures StartsWithCpu(Renamed(s, tag)) <==> StartsWithCpu(s)
  {
    if s != "" && !StartsWithCpu(s) {
      var r1 := Renamed(s[1..], tag);
      RenamedHead(s[1..], tag);
      if |s| >= 2 && s[0] == 'c' && s[1] == 'p' {
        assert r1 == [s[1]] + Renamed(s[2..], tag) by { assert s[1..][1..] == s[2..]; }
        RenamedHead(s[2..], tag);
      }
    }
  }

  predicate CpuAt(s: string, i: int) { 0 <= i <= |s| - 3 && s[i] == 'c' && s[i + 1] == 'p' && s[i + 2] == 'u' }

  /** What looking for "cpu" means. */
  lemma {:induction false} ContainsCpuIs(s: string)
    ensures ContainsCpu(s) <==> exists i :: CpuAt(s, i)
  {
    if s != "" {
      ContainsCpuIs(s[1..]);
      if i :| CpuAt(s, i) {
        if i > 0 { assert CpuAt(s[1..], i - 1); }
      }
      if StartsWithCpu(s) {
        assert CpuAt(s, 0);
      } else if i :| CpuAt(s[1..], i) {
        assert CpuAt(s, i + 1);
      }
    }
  }

  /** Renaming puts the tag behind the first "cpu" and goes on behind it; a name without one is kept. */
  lemma {:induction false} RenamedFirst(x: string, y: string, tag: string)
    requires !ContainsCpu(x + "cp")
    ensures Renamed(x + "cpu" + y, tag) == x + "cpu" + tag + Renamed(y, tag)
  {
    var s := x + "cpu" + y;
    if x == "" {
      assert s[3..] == y && StartsWithCpu(s);
    } else {
      assert (x + "cp")[1..] == x[1..] + "cp";
      assert !StartsWithCpu(s) by {
        assert s[0] == (x + "cp")[0] && s[1] == (x + "cp")[1] && s[2] == (x + "cp")[2];
      }
      RenamedFirst(x[1..], y, tag);
      assert s[1..] == x[1..] + "cpu" + y;
      assert x == [x[0]] + x[1..];
    }
  }

  lemma {:induction false} RenamedElse(s: string, tag: string)
    requires !ContainsCpu(s)
    ensures Renamed(s, tag) == s
  {
    if s != "" { RenamedElse(s[1..], tag); }
  }

  /** Different names, or tags of the same length, never lead to the same renamed section. */
  lemma {:induction false} RenamingIsInjective(s: string, t: string, a: string, b: string)
    requires |a| == |b| && Renamed(s, a) == Renamed(t, b)
    ensures s == t && (ContainsCpu(s) ==> a == b)
    decreases |s|
  {
    RenamedStart(s, a);
    RenamedStart(t, b);
    RenamedHead(s, a);
    RenamedHead(t, b);
    if s != "" && t != "" {
      var r := Renamed(s, a);
      if StartsWithCpu(s) {
        var x, y := Renamed(s[3..], a), Renamed(t[3..], b);
        assert r == "cpu" + a + x == "cpu" + b + y;
        assert a == r[3..3 + |a|] == b && x == r[3 + |a|..] == y;
        RenamingIsInjective(s[3..], t[3..], a, b);
        assert s == "cpu" + s[3..] && t == "cpu" + t[3..];
      } else {
        assert Renamed(s[1..], a) == r[1..] == Renamed(t[1..], b);
        RenamingIsInjective(s[1..], t[1..], a, b);
        assert s == [s[0]] + s[1..] && t == [t[0]] + t[1..];
      }
    }
  }

  lemma {:induction false} DigitsGrow(a: nat, b: nat)
    requires a <= b
    ensures |Digits(a)| <= |Digits(b)|
  {
    if a >= 10 { DigitsGrow(a / 10, b / 10); }
  }

  lemma {:induction false} LeadingZero(s: string)
    ensures NumeralValue("0" + s) == NumeralValue(s)
  {
    if s == "" {
      assert "0" + s == "0" && NumeralValue("0") == 10 * NumeralValue("") + 0;
    } else {
      LeadingZero(s[..|s| - 1]);
      assert ("0" + s)[..|s|] == "0" + s[..|s| - 1];
    }
  }

  lemma {:induction false} ZFillKeeps(s: string, width: nat)
    requires |s| <= width
    ensures |ZFill(s, width)| == width && NumeralValue(ZFill(s, width)) == NumeralValue(s)
    decreases width - |s|
  {
    if |s| < width {
      LeadingZero(s);
      ZFillKeeps("0" + s, width);
    }
  }

  /** A tag is the number of the checkpoint in decimal, filled with zeros to the length of the largest number. */
  lemma TagIs(i: nat, n: nat)
    requires i < n
    ensures |Tag(i, n)| == |Digits(n - 1)| && NumeralValue(Tag(i, n)) == i
  {
    DigitsGrow(i, n - 1);
    ZFillKeeps(Digits(i), |Digits(n - 1)|);
    DigitsValue(i);
  }

  /** All tags have the same length, and different checkpoints have different tags. */
  lemma TagsDiffer(i: nat, j: nat, n: nat)
    requires i < n && j < n
    ensures |Tag(i, n)| == |Tag(j, n)| && (Tag(i, n) == Tag(j, n) ==> i == j)
  {
    TagIs(i, n);
    TagIs(j, n);
  }

  lemma {:induction false} RenamedContainsCpu(s: string, tag: string)
    requires ContainsCpu(s)
    ensures ContainsCpu(Renamed(s, tag))
  {
    RenamedStart(s, tag);
    if !StartsWithCpu(s) {
      RenamedContainsCpu(s[1..], tag);
      assert Renamed(s, tag)[1..] == Renamed(s[1..], tag);
    }
  }

  // ---------- the merged configuration ----------

  function RelocateItems(items: seq<Item>, offset: nat): seq<Item> {
    if items == [] then []
    else
      var last := items[|items| - 1];
      RelocateItems(items[..|items| - 1], offset) + [if last.PAddr? then PAddr(last.addr + offset * PAGE) else last]
  }

  /** Physical addresses are relocated, all other items kept. */
  lemma {:induction false} ItemsRelocated(cpts: seq<Checkpoint>, i: nat, items: seq<Item>, k: nat)
    requires i < |cpts| && k < |items|
    ensures var r := RelocateItems(items, PagesBefore(cpts[..i]));
            |r| == |items| && r[k] == if items[k].PAddr? then PAddr(Relocated(cpts, i, items[k].addr)) else items[k]
  {
    var front := items[..|items| - 1];
    if k < |front| { ItemsRelocated(cpts, i, front, k); }
    else if front != [] { ItemsRelocated(cpts, i, front, 0); }
  }

  /** What section number `i` of `n` checkpoints contributes; only the last checkpoint keeps its other sections. */
  function MergedSection(s: Section, i: nat, n: nat, offset: nat): seq<Section>
    requires i < n
  {
    if ContainsCpu(s.name) then [Section(Renamed(s.name, Tag(i, n)), RelocateItems(s.items, offset))]
    else if s.name == "system" || s.name == "Globals" then []
    else if i == n - 1 then [s] else []
  }

  function MergedFrom(sections: seq<Section>, i: nat, n: nat, offset: nat): seq<Section>
    requires i < n
  {
    if sections == [] then []
    else MergedFrom(sections[..|sections| - 1], i, n, offset) + MergedSection(sections[|sections| - 1], i, n, offset)
  }

  /** The sections of the first `k` of `n` checkpoints. */
  function MergedSections(cpts: seq<Checkpoint>, k: nat): seq<Section>
    requires k <= |cpts|
  {
    if k == 0 then []
    else MergedSections(cpts, k - 1) + MergedFrom(cpts[k - 1].sections, k - 1, |cpts|, PagesBefore(cpts[..k - 1]))
  }

  ghost predicate DistinctNames(sections: seq<Section>) {
    forall a, b :: 0 <= a < b < |sections| ==> sections[a].name != sections[b].name
  }

  /** A name the `i`-th checkpoint contributes. */
  ghost predicate NameFrom(name: string, sections: seq<Section>, i: nat, n: nat)
    requires i < n
  {
    exists s :: s in sections && IsNameOf(name, s.name, i, n)
  }

  ghost predicate IsNameOf(name: string, original: string, i: nat, n: nat)
    requires i < n
  {
    if ContainsCpu(original) then name == Renamed(original, Tag(i, n))
    else name == original && i == n - 1 && name != "system" && name != "Globals"
  }

  /** A name determines the checkpoint and the section it came from. */
  lemma NameDetermines(name: string, x: string, y: string, i: nat, j: nat, n: nat)
    requires i < n && j < n && IsNameOf(name, x, i, n) && IsNameOf(name, y, j, n)
    ensures i == j && x == y
  {
    TagsDiffer(i, j, n);
    if ContainsCpu(x) && ContainsCpu(y) {
      RenamingIsInjective(x, y, Tag(i, n), Tag(j, n));
    } else if ContainsCpu(x) {
      RenamedContainsCpu(x, Tag(i, n));
    } else if ContainsCpu(y) {
      RenamedContainsCpu(y, Tag(j, n));
    }
  }

  lemma {:induction false} NamesOfPart(sections: seq<Section>, i: nat, n: nat, offset: nat)
    requires i < n && DistinctNames(sections)
    ensures forall s :: s in MergedFrom(sections, i, n, offset) ==> NameFrom(s.name, sections, i, n)
    ensures DistinctNames(MergedFrom(sections, i, n, offset))
  {
    if sections != [] {
      var front, last := sections[..|sections| - 1], sections[|sections| - 1];
      NamesOfPart(front, i, n, offset);
      var before, added := MergedFrom(front, i, n, offset), MergedSection(last, i, n, offset);
      assert last in sections && forall s :: s in front ==> s in sections;
      forall s | s in before ensures NameFrom(s.name, sections, i, n) && forall t :: t in added ==> s.name != t.name {
        var o :| o in front && IsNameOf(s.name, o.name, i, n);
        assert o.name != last.name;
        forall t | t in added ensures s.name != t.name {
          assert IsNameOf(t.name, last.name, i, n);
          if s.name == t.name { NameDetermines(s.name, o.name, last.name, i, i, n); }
        }
      }
      DistinctAppend(before, added);
    }
  }

  lemma DistinctAppend(a: seq<Section>, b: seq<Section>)
    requires DistinctNames(a) && DistinctNames(b)
    requires forall s, t :: s in a && t in b ==> s.name != t.name
    ensures DistinctNames(a + b)
  {
  }

  /** Merged sections never clash, whatever the checkpoints are called and however many there are. */
  lemma {:induction false} SectionNamesDistinct(cpts: seq<Checkpoint>, k: nat)
    requires k <= |cpts| && forall c :: c in cpts ==> DistinctNames(c.sections)
    ensures forall s :: s in MergedSections(cpts, k) ==> exists i :: 0 <= i < k && NameFrom(s.name, cpts[i].sections, i, |cpts|)
    ensures DistinctNames(MergedSections(cpts, k))
  {
    if k > 0 {
      SectionNamesDistinct(cpts, k - 1);
      var n, offset := |cpts|, PagesBefore(cpts[..k - 1]);
      var before, added := MergedSections(cpts, k - 1), MergedFrom(cpts[k - 1].sections, k - 1, n, offset);
      assert cpts[k - 1] in cpts;
      NamesOfPart(cpts[k - 1].sections, k - 1, n, offset);
      forall s, t | s in before && t in added ensures s.name != t.name {
        var i :| 0 <= i < k - 1 && NameFrom(s.name, cpts[i].sections, i, n);
        if s.name == t.name { DifferentCheckpoints(s.name, cpts, i, k - 1); }
      }
      DistinctAppend(before, added);
    }
  }

  lemma DifferentCheckpoints(name: string, cpts: seq<Checkpoint>, i: nat, j: nat)
    requires i < |cpts| && j < |cpts|
    requires NameFrom(name, cpts[i].sections, i, |cpts|) && NameFrom(name, cpts[j].sections, j, |cpts|)
    ensures i == j
  {
    var s :| s in cpts[i].sections && IsNameOf(name, s.name, i, |cpts|);
    var t :| t in cpts[j].sections && IsNameOf(name, t.name, j, |cpts|);
    NameDetermines(name, s.name, t.name, i, j, |cpts|);
  }

  function LatestTick(cpts: seq<Checkpoint>): nat {
    if cpts == [] then 0
    else
      var t, last := LatestTick(cpts[..|cpts| - 1]), cpts[|cpts| - 1].curTick;
      if last > t then last else t
  }

  lemma {:induction false} LatestTickIs(cpts: seq<Checkpoint>)
    ensures forall c :: c in cpts ==> c.curTick <= LatestTick(cpts)
    ensures cpts != [] ==> exists c :: c in cpts && c.curTick == LatestTick(cpts)
  {
    if cpts != [] {
      var front, last := cpts[..|cpts| - 1], cpts[|cpts| - 1];
      LatestTickIs(front);
      assert last in cpts && forall c :: c in cpts <==> c in front || c == last;
    }
  }

  /** Section `s` of checkpoint `i` becomes `t`: a processor's section gets the number of the checkpoint and has its
      addresses moved behind the earlier checkpoints; others are kept of the last checkpoint only. */
  ghost predicate Becomes(cpts: seq<Checkpoint>, i: nat, s: Section, t: Section)
    requires i < |cpts|
  {
    if ContainsCpu(s.name) then
      && t.name == Renamed(s.name, Tag(i, |cpts|)) && |t.items| == |s.items|
      && forall k :: 0 <= k < |s.items| ==>
           t.items[k] == if s.items[k].PAddr? then PAddr(s.items[k].addr + PagesBefore(cpts[..i]) * PAGE) else s.items[k]
    else
      i == |cpts| - 1 && s.name != "system" && s.name != "Globals" && t == s
  }

  lemma {:induction false} MembersOfPart(sections: seq<Section>, i: nat, n: nat, offset: nat, t: Section)
    requires i < n
    ensures t in MergedFrom(sections, i, n, offset) <==> exists s :: s in sections && t in MergedSection(s, i, n, offset)
  {
    if sections != [] {
      var front, last := sections[..|sections| - 1], sections[|sections| - 1];
      MembersOfPart(front, i, n, offset, t);
      assert last in sections && forall s :: s in sections <==> s in front || s == last;
    }
  }

  lemma BecomesIs(cpts: seq<Checkpoint>, i: nat, s: Section, t: Section)
    requires i < |cpts|
    ensures t in MergedSection(s, i, |cpts|, PagesBefore(cpts[..i])) <==> Becomes(cpts, i, s, t)
  {
    if ContainsCpu(s.name) {
      var items := RelocateItems(s.items, PagesBefore(cpts[..i]));
      forall k | 0 <= k < |s.items|
        ensures |items| == |s.items|
        ensures items[k] == if s.items[k].PAddr? then PAddr(s.items[k].addr + PagesBefore(cpts[..i]) * PAGE) else s.items[k]
      {
        ItemsRelocated(cpts, i, s.items, k);
      }
      assert s.items == [] ==> items == [];
      if Becomes(cpts, i, s, t) { assert t.items == items; }
    }
  }

  /** `t` comes from checkpoint `i`. */
  ghost predicate ComesFrom(cpts: seq<Checkpoint>, i: nat, t: Section)
    requires i < |cpts|
  {
    exists s :: s in cpts[i].sections && Becomes(cpts, i, s, t)
  }

  /** The sections of the result, one by one. */
  lemma {:induction false} SectionsAre(cpts: seq<Checkpoint>, k: nat, t: Section)
    requires k <= |cpts|
    ensures t in MergedSections(cpts, k) <==> exists i :: 0 <= i < k && ComesFrom(cpts, i, t)
  {
    if k > 0 {
      var i, n := k - 1, |cpts|;
      SectionsAre(cpts, i, t);
      var offset, sections := PagesBefore(cpts[..i]), cpts[i].sections;
      assert t in MergedFrom(sections, i, n, offset) <==> ComesFrom(cpts, i, t) by {
        MembersOfPart(sections, i, n, offset, t);
        forall s | s in sections ensures t in MergedSection(s, i, n, offset) <==> Becomes(cpts, i, s, t) {
          BecomesIs(cpts, i, s, t);
        }
      }
    }
  }

  /** The loop over the checkpoints. */
  method MergeAll(cpts: seq<Checkpoint>) returns (memory: seq<byte>, sections: seq<Section>, pagePtr: nat, maxTick: nat)
    ensures memory == MemoryOf(cpts) && sections == MergedSections(cpts, |cpts|)
    ensures pagePtr == PagesBefore(cpts) && forall c :: c in cpts ==> c.curTick <= maxTick
    ensures if cpts == [] then maxTick == 0 else exists c :: c in cpts && c.curTick == maxTick
  {
    memory, sections, pagePtr, maxTick := [], [], 0, 0;
    for i := 0 to |cpts|
      invariant pagePtr == PagesBefore(cpts[..i]) && maxTick == LatestTick(cpts[..i])
      invariant memory == MemoryOf(cpts[..i]) && sections == MergedSections(cpts, i)
    {
      assert cpts[..i + 1][..i] == cpts[..i];
      var c := cpts[i];
      var part := MergeConfig(c.sections, i, |cpts|, pagePtr);
      sections := sections + part;
      if c.curTick > maxTick {
        maxTick := c.curTick;
      }
      pagePtr := pagePtr + c.pages;
      memory := CopyPages(c, memory);
    }
    assert cpts[..|cpts|] == cpts;
    LatestTickIs(cpts);
  }

  /** Merges checkpoints. The recorded range is the least whole number of pages that covers all
      checkpoints and the requested size, and the file has that size exactly when no memory file was short. */
  method Aggregate(cpts: seq<Checkpoint>, memorySize: int) returns (m: Merged)
    requires cpts != []
    ensures (forall c :: c in cpts ==> c.curTick <= m.curTick) && exists c :: c in cpts && c.curTick == m.curTick
    ensures m.sections == MergedSections(cpts, |cpts|)
    ensures forall t :: t in m.sections <==> exists i :: 0 <= i < |cpts| && ComesFrom(cpts, i, t)
    ensures m.pagePtr == PagesBefore(cpts) && m.nextPid == |cpts|
    ensures m.rangeSize % PAGE == 0 && LeastCover(m.rangeSize / PAGE, m.pagePtr, memorySize)
    ensures m.memory == MemoryOf(cpts) + Padding(m.rangeSize / PAGE - m.pagePtr)
    ensures forall k :: |MemoryOf(cpts)| <= k < |m.memory| ==> m.memory[k] == '0' as int
    ensures |m.memory| == m.rangeSize <==> forall c :: c in cpts ==> Full(c)
  {
    var memory, sections, pagePtr, maxTick := MergeAll(cpts);
    var out, n := Pad(memory, pagePtr, memorySize);
    PaddingIs(n - pagePtr);
    MemoryLength(cpts);
    forall t ensures t in sections <==> exists i :: 0 <= i < |cpts| && ComesFrom(cpts, i, t) {
      SectionsAre(cpts, |cpts|, t);
    }
    m := Merged(out, sections, pagePtr, |cpts|, n * 4 * 1024, maxTick);
  }

  method MergeConfig(sections: seq<Section>, i: nat, n: nat, pagePtr: nat) returns (out: seq<Section>)
    requires i < n
    ensures out == MergedFrom(sections, i, n, pagePtr)
  {
    out := [];
    for k := 0 to |sections|
      invariant out == MergedFrom(sections[..k], i, n, pagePtr)
    {
      assert sections[..k + 1][..k] == sections[..k];
      var s := sections[k];
      if ContainsCpu(s.name) {
        out := out + [Section(Renamed(s.name, Tag(i, n)), RelocateItems(s.items, pagePtr))];
      } else if s.name != "system" && s.name != "Globals" && i == n - 1 {
        out := out + [s];
      }
    }
    assert sections[..|sections|] == sections;
  }
}
