/** Splitting an instruction trace into basic blocks, counting the distinct blocks and
    recording from which branch each block was entered. What counts as a branch is a
    parameter throughout. */
module BasicBlocks {
  import opened Common

  datatype Inst = Inst(pc: int, text: string)

  type Block = seq<Inst>

  type Branch = Inst -> bool

  /** Finished blocks and the one under construction. */
  datatype Split = Split(blocks: seq<Block>, current: Block)

  function Step(isBranch: Branch, s: Split, i: Inst): Split {
    if isBranch(i) then Split(s.blocks + [s.current + [i]], []) else Split(s.blocks, s.current + [i])
  }

  function SplitTrace(isBranch: Branch, trace: seq<Inst>): Split {
    if trace == [] then Split([], [])
    else Step(isBranch, SplitTrace(isBranch, trace[..|trace| - 1]), trace[|trace| - 1])
  }

  function AllOf(s: Split): seq<Block> { if s.current == [] then s.blocks else s.blocks + [s.current] }

  function Blocks(isBranch: Branch, trace: seq<Inst>): seq<Block> { AllOf(SplitTrace(isBranch, trace)) }

  function Flatten(blocks: seq<Block>): seq<Inst> {
    if blocks == [] then [] else Flatten(blocks[..|blocks| - 1]) + blocks[|blocks| - 1]
  }

  function FirstPc(b: Block): int { if b == [] then 0 else b[0].pc }

  function LastPc(b: Block): int { if b == [] then 0 else b[|b| - 1].pc }

  /** The branch a next block would be entered from: the end of the last block, or 0. */
  function ExitPc(blocks: seq<Block>): int { if blocks == [] then 0 else LastPc(blocks[|blocks| - 1]) }

  function AddJump(m: map<int, set<int>>, p: int, from_: int): map<int, set<int>> {
    m[p := (if p in m then m[p] else {}) + {from_}]
  }

  /** For every program counter at which a block starts, the branches it was entered from. */
  function Jumps(blocks: seq<Block>): map<int, set<int>> {
    if blocks == [] then map[]
    else
      var front, last := blocks[..|blocks| - 1], blocks[|blocks| - 1];
      AddJump(Jumps(front), FirstPc(last), ExitPc(front))
  }

  // ---------- the extraction ----------

  /** Counts the blocks of the trace, and records for every instruction that starts one where it was entered from. */
  method ExtractBasicBlocks(isBranch: Branch, trace: seq<Inst>) returns (counts: multiset<Block>, jmpMap: map<int, set<int>>)
    ensures exists blocks :: IsPartition(isBranch, blocks, trace) && counts == multiset(blocks)
    ensures forall p, f :: Recorded(jmpMap, p, f) <==> exists k :: EnteredAt(isBranch, trace, k, p, f)
  {
    counts, jmpMap := ScanTrace(isBranch, trace);
    BlocksPartition(isBranch, trace);
    forall p, f ensures Recorded(jmpMap, p, f) <==> exists k :: EnteredAt(isBranch, trace, k, p, f) {
      JumpsFromTrace(isBranch, trace, p, f);
    }
  }

  predicate Recorded(m: map<int, set<int>>, p: int, f: int) { p in m && f in m[p] }

  /** Instruction `k`, at `p`, is entered from `f`: it is the first one and `f` is 0, or it follows the branch at `f`. */
  ghost predicate EnteredAt(isBranch: Branch, trace: seq<Inst>, k: int, p: int, f: int) {
    && 0 <= k < |trace| && trace[k].pc == p
    && (if k == 0 then f == 0 else isBranch(trace[k - 1]) && f == trace[k - 1].pc)
  }

  method ScanTrace(isBranch: Branch, trace: seq<Inst>) returns (counts: multiset<Block>, jmpMap: map<int, set<int>>)
    ensures counts == multiset(Blocks(isBranch, trace)) && jmpMap == Jumps(Blocks(isBranch, trace))
  {
    counts, jmpMap := multiset{}, map[];
    var current: Block := [];
    var lastJmpPc := 0;
    ghost var s := Split([], []);
    for i := 0 to |trace|
      invariant s == SplitTrace(isBranch, trace[..i])
      invariant current == s.current && counts == multiset(s.blocks) && lastJmpPc == ExitPc(s.blocks)
      invariant jmpMap == Jumps(AllOf(s))
    {
      var inst := trace[i];
      assert SplitTrace(isBranch, trace[..i + 1]) == Step(isBranch, s, inst) by { assert trace[..i + 1][..i] == trace[..i]; }
      if current == [] {
        jmpMap := jmpMap[inst.pc := (if inst.pc in jmpMap then jmpMap[inst.pc] else {}) + {lastJmpPc}];
      }
      assert jmpMap == Jumps(s.blocks + [current + [inst]]) by { EnterOrGrow(s, inst); }
      current := current + [inst];
      s := Step(isBranch, s, inst);
      if isBranch(inst) {
        counts := counts + multiset{current};
        lastJmpPc := inst.pc;
        current := [];
      }
    }
    assert trace[..|trace|] == trace;
    if current != [] {
      counts := counts + multiset{current};
    }
  }

  lemma JumpsNext(blocks: seq<Block>, b: Block)
    ensures Jumps(blocks + [b]) == AddJump(Jumps(blocks), FirstPc(b), ExitPc(blocks))
  {
    assert (blocks + [b])[..|blocks|] == blocks;
  }

  /** A new block is recorded when its first instruction arrives, and not again while it grows. */
  lemma EnterOrGrow(s: Split, i: Inst)
    ensures Jumps(s.blocks + [s.current + [i]]) ==
            if s.current == [] then AddJump(Jumps(AllOf(s)), i.pc, ExitPc(s.blocks)) else Jumps(AllOf(s))
  {
    JumpsNext(s.blocks, s.current);
    JumpsNext(s.blocks, s.current + [i]);
  }

  // ---------- what the blocks are ----------

  /** Blocks are never empty, and a branch only ends one. */
  ghost predicate IsBlock(isBranch: Branch, b: Block) {
    b != [] && forall k :: 0 <= k < |b| - 1 ==> !isBranch(b[k])
  }

  ghost predicate EndsInBranch(isBranch: Branch, b: Block) { b != [] && isBranch(b[|b| - 1]) }

  /** The blocks of a trace: together the trace, and each but the last closed by a branch. */
  ghost predicate IsPartition(isBranch: Branch, blocks: seq<Block>, trace: seq<Inst>) {
    && Flatten(blocks) == trace
    && (forall k :: 0 <= k < |blocks| ==> IsBlock(isBranch, blocks[k]))
    && (forall k :: 0 <= k < |blocks| - 1 ==> EndsInBranch(isBranch, blocks[k]))
  }

  lemma FlattenNext(blocks: seq<Block>, b: Block)
    ensures Flatten(blocks + [b]) == Flatten(blocks) + b
  {
    assert (blocks + [b])[..|blocks|] == blocks;
  }

  ghost predicate IsSplit(isBranch: Branch, s: Split, trace: seq<Inst>) {
    && Flatten(s.blocks) + s.current == trace
    && (forall k :: 0 <= k < |s.blocks| ==> IsBlock(isBranch, s.blocks[k]) && EndsInBranch(isBranch, s.blocks[k]))
    && (forall k :: 0 <= k < |s.current| ==> !isBranch(s.current[k]))
  }

  lemma {:induction false} StepKeepsSplit(isBranch: Branch, s: Split, trace: seq<Inst>, i: Inst)
    requires IsSplit(isBranch, s, trace)
    ensures IsSplit(isBranch, Step(isBranch, s, i), trace + [i])
  {
    var b := s.current + [i];
    FlattenNext(s.blocks, b);
    Regrouped(Flatten(s.blocks), s.current, i);
    forall k | 0 <= k < |b| - 1 ensures !isBranch(b[k]) { assert b[k] == s.current[k]; }
  }

  lemma Regrouped(a: seq<Inst>, b: seq<Inst>, i: Inst)
    ensures a + (b + [i]) == (a + b) + [i]
  {
  }

  lemma {:induction false} SplitIsRight(isBranch: Branch, trace: seq<Inst>)
    ensures IsSplit(isBranch, SplitTrace(isBranch, trace), trace)
  {
    if trace != [] {
      var front, i := trace[..|trace| - 1], trace[|trace| - 1];
      SplitIsRight(isBranch, front);
      StepKeepsSplit(isBranch, SplitTrace(isBranch, front), front, i);
      assert front + [i] == trace;
    }
  }

  lemma BlocksPartition(isBranch: Branch, trace: seq<Inst>)
    ensures IsPartition(isBranch, Blocks(isBranch, trace), trace)
  {
    SplitIsRight(isBranch, trace);
    var s := SplitTrace(isBranch, trace);
    FlattenNext(s.blocks, s.current);
    if s.current == [] { assert Flatten(s.blocks) + [] == Flatten(s.blocks); }
  }

  /** There is only one such partition. */
  lemma {:induction false} PartitionIsUnique(isBranch: Branch, a: seq<Block>, b: seq<Block>, trace: seq<Inst>)
    requires IsPartition(isBranch, a, trace) && IsPartition(isBranch, b, trace)
    ensures a == b
    decreases |a|
  {
    if a != [] { LastBlock(isBranch, a, trace); }
    if b != [] { LastBlock(isBranch, b, trace); }
    if trace != [] {
      var n, m := |trace| - |a[|a| - 1]|, |trace| - |b[|b| - 1]|;
      assert n == m;
      PartitionIsUnique(isBranch, a[..|a| - 1], b[..|b| - 1], trace[..n]);
      assert a == a[..|a| - 1] + [a[|a| - 1]] && b == b[..|b| - 1] + [b[|b| - 1]];
    }
  }

  /** Where the last block starts: behind the last branch that is not the end of the trace. */
  lemma LastBlock(isBranch: Branch, a: seq<Block>, trace: seq<Inst>)
    requires IsPartition(isBranch, a, trace) && a != []
    ensures var x, front := a[|a| - 1], a[..|a| - 1];
            var n := |trace| - |x|;
            && 0 <= n < |trace| && x == trace[n..]
            && IsPartition(isBranch, front, trace[..n])
            && (n > 0 ==> isBranch(trace[n - 1]))
            && (forall k :: n <= k < |trace| - 1 ==> !isBranch(trace[k]))
  {
  }

  // ---------- counts and jumps ----------

  /** The sum, over the distinct blocks, of count times length. */
  ghost function Weight(counts: multiset<Block>): nat
    decreases |counts|
  {
    if counts == multiset{} then 0
    else
      var b :| b in counts;
      counts[b] * |b| + Weight(counts[b := 0])
  }

  lemma {:induction false} WeightOf(counts: multiset<Block>, x: Block)
    ensures Weight(counts) == counts[x] * |x| + Weight(counts[x := 0])
    decreases |counts|
  {
    if x !in counts {
      assert counts[x := 0] == counts;
    } else {
      var b :| b in counts && Weight(counts) == counts[b] * |b| + Weight(counts[b := 0]);
      if b != x {
        WeightOf(counts[b := 0], x);
        WeightOf(counts[x := 0], b);
        assert counts[b := 0][x := 0] == counts[x := 0][b := 0];
      }
    }
  }

  lemma WeightAdd(counts: multiset<Block>, x: Block)
    ensures Weight(counts + multiset{x}) == Weight(counts) + |x|
  {
    var more := counts + multiset{x};
    assert Weight(counts) == counts[x] * |x| + Weight(counts[x := 0]) by { WeightOf(counts, x); }
    assert Weight(more) == more[x] * |x| + Weight(more[x := 0]) by { WeightOf(more, x); }
    assert more[x := 0] == counts[x := 0];
    OneMore(counts[x], |x|);
  }

  lemma {:induction false} WeightIsLength(blocks: seq<Block>)
    ensures Weight(multiset(blocks)) == |Flatten(blocks)|
  {
    if blocks != [] {
      var front, last := blocks[..|blocks| - 1], blocks[|blocks| - 1];
      WeightIsLength(front);
      WeightAdd(multiset(front), last);
      assert blocks == front + [last];
      assert multiset(blocks) == multiset(front) + multiset{last};
    }
  }

  /** No instruction is lost or counted twice. */
  lemma CountsCoverTrace(isBranch: Branch, trace: seq<Inst>)
    ensures Weight(multiset(Blocks(isBranch, trace))) == |trace|
  {
    BlocksPartition(isBranch, trace);
    WeightIsLength(Blocks(isBranch, trace));
  }

  /** The jump map holds exactly the pairs of consecutive blocks, and 0 for the first block. */
  lemma {:induction false} JumpsAre(blocks: seq<Block>, p: int, f: int)
    ensures Recorded(Jumps(blocks), p, f) <==>
            exists k :: 0 <= k < |blocks| && FirstPc(blocks[k]) == p && ExitPc(blocks[..k]) == f
  {
    if blocks != [] {
      var front, last := blocks[..|blocks| - 1], blocks[|blocks| - 1];
      JumpsAre(front, p, f);
      if k :| 0 <= k < |front| && FirstPc(front[k]) == p && ExitPc(front[..k]) == f {
        assert blocks[..k] == front[..k] && blocks[k] == front[k];
      }
      if k :| 0 <= k < |blocks| && FirstPc(blocks[k]) == p && ExitPc(blocks[..k]) == f {
        if k < |front| { assert blocks[..k] == front[..k] && blocks[k] == front[k]; }
      }
    }
  }

  lemma EnteredNext(isBranch: Branch, trace: seq<Inst>, p: int, f: int)
    requires trace != []
    ensures var n := |trace| - 1;
            (exists k :: EnteredAt(isBranch, trace, k, p, f)) <==>
            (exists k :: EnteredAt(isBranch, trace[..n], k, p, f)) || EnteredAt(isBranch, trace, n, p, f)
  {
    var n := |trace| - 1;
    forall k | k != n ensures EnteredAt(isBranch, trace, k, p, f) <==> EnteredAt(isBranch, trace[..n], k, p, f) {}
    assert !EnteredAt(isBranch, trace[..n], n, p, f);
  }

  lemma AddedJump(m: map<int, set<int>>, q: int, g: int, p: int, f: int)
    ensures Recorded(AddJump(m, q, g), p, f) <==> Recorded(m, p, f) || (p == q && f == g)
  {
  }

  /** Where a block can start: at the beginning, and behind a branch. */
  lemma NextEntry(isBranch: Branch, trace: seq<Inst>)
    ensures var s := SplitTrace(isBranch, trace);
            && (s.current == [] <==> trace == [] || isBranch(trace[|trace| - 1]))
            && (s.current == [] ==> ExitPc(s.blocks) == if trace == [] then 0 else trace[|trace| - 1].pc)
  {
  }

  lemma {:induction false} RecordedNext(isBranch: Branch, trace: seq<Inst>, p: int, f: int)
    requires trace != []
    ensures var n := |trace| - 1;
            Recorded(Jumps(Blocks(isBranch, trace)), p, f) <==>
            Recorded(Jumps(Blocks(isBranch, trace[..n])), p, f) || EnteredAt(isBranch, trace, n, p, f)
  {
    var n := |trace| - 1;
    var s := SplitTrace(isBranch, trace[..n]);
    assert Jumps(Blocks(isBranch, trace)) ==
           if s.current == [] then AddJump(Jumps(AllOf(s)), trace[n].pc, ExitPc(s.blocks)) else Jumps(AllOf(s)) by {
      EnterOrGrow(s, trace[n]);
    }
    NextEntry(isBranch, trace[..n]);
    AddedJump(Jumps(AllOf(s)), trace[n].pc, ExitPc(s.blocks), p, f);
  }

  /** In terms of the trace: the jump map holds `f` for `p` exactly if an instruction at `p` is entered from `f`. */
  lemma {:induction false} JumpsFromTrace(isBranch: Branch, trace: seq<Inst>, p: int, f: int)
    ensures Recorded(Jumps(Blocks(isBranch, trace)), p, f) <==> exists k :: EnteredAt(isBranch, trace, k, p, f)
  {
    if trace != [] {
      JumpsFromTrace(isBranch, trace[..|trace| - 1], p, f);
      EnteredNext(isBranch, trace, p, f);
      RecordedNext(isBranch, trace, p, f);
    }
  }
}
