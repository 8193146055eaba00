/** The print queue of the O3 pipeline viewer: instructions enter out of order,
    the queue is sorted when it overflows and drained down to `minThreshold`. */
module ReorderQueue {
  import opened SnSort

  datatype Config = Config(
    maxThreshold: nat, minThreshold: nat,
    snStart: int, snStop: int,
    tickStart: int, tickStop: int, tickDrift: nat,
    onlyCommitted: bool)

  /** The boundary tests applied to an instruction that leaves the queue. */
  predicate Wanted(c: Config, i: Inst) {
    && !(c.snStart > 0 && i.sn < c.snStart)
    && !(c.snStop > 0 && i.sn > c.snStop)
    && !(c.tickStart > 0 && i.fetch < c.tickStart)
    && !(c.tickStop > 0 && i.fetch > c.tickStop)
    && !(c.onlyCommitted && i.retire == 0)
  }

  /** What the options ask for; zero means no limit. */
  ghost predicate Requested(c: Config, i: Inst) {
    && (c.snStart > 0 ==> i.sn >= c.snStart) && (c.snStop > 0 ==> i.sn <= c.snStop)
    && (c.tickStart > 0 ==> i.fetch >= c.tickStart) && (c.tickStop > 0 ==> i.fetch <= c.tickStop)
    && (c.onlyCommitted ==> i.retire != 0)
  }

  lemma WantedIs(c: Config, i: Inst)
    ensures Wanted(c, i) <==> Requested(c, i)
  {
  }

  function Select(c: Config, s: seq<Inst>): seq<Inst> {
    Filter(Keep(c), s)
  }

  function Keep(c: Config): Inst -> bool {
    (i: Inst) => Wanted(c, i)
  }

  // ---------- specification of the queue ----------

  /** `drained` lists everything that was ever popped, before the boundary tests. */
  datatype QueueState = QueueState(queue: seq<Inst>, drained: seq<Inst>)

  function Drain(q: QueueState, lower: nat): QueueState {
    var sorted := StableSort(q.queue);
    if |sorted| <= lower then QueueState(sorted, q.drained)
    else QueueState(sorted[|sorted| - lower..], q.drained + sorted[..|sorted| - lower])
  }

  function Enqueue(c: Config, q: QueueState, x: Inst): QueueState {
    var grown := QueueState(q.queue + [x], q.drained);
    if |grown.queue| > c.maxThreshold then Drain(grown, c.minThreshold) else grown
  }

  /** The queue after a whole input. */
  function Run(c: Config, input: seq<Inst>): QueueState {
    if input == [] then QueueState([], [])
    else Enqueue(c, Run(c, input[..|input| - 1]), input[|input| - 1])
  }

  /** Everything popped by the end of the trace, in order. */
  function Output(c: Config, input: seq<Inst>): seq<Inst> {
    Drain(Run(c, input), 0).drained
  }

  // ---------- the queue object ----------

  class PrintQueue {
    const cfg: Config
    var queue: seq<Inst>
    var printed: seq<Inst>
    ghost var drained: seq<Inst>

    ghost function State(): QueueState
      reads this
    {
      QueueState(queue, drained)
    }

    ghost predicate Valid()
      reads this
    {
      printed == Select(cfg, drained)
    }

    constructor (c: Config)
      ensures Valid() && cfg == c && State() == Run(c, []) && printed == []
    {
      cfg := c;
      queue, printed, drained := [], [], [];
    }

    method PrintInsts(lowerThreshold: nat)
      requires Valid()
      modifies this
      ensures Valid() && State() == Drain(old(State()), lowerThreshold)
      ensures forall x :: x in printed <==> x in drained && Requested(cfg, x)
    {
      queue := StableSort(queue);
      ghost var sorted := queue;
      ghost var before := drained;
      ghost var k := 0;
      while |queue| > lowerThreshold
        invariant 0 <= k <= |sorted| && queue == sorted[k..]
        invariant k > 0 ==> |queue| >= lowerThreshold
        invariant drained == before + sorted[..k]
        invariant Valid()
      {
        var item := queue[0];
        queue := queue[1..];
        FilterAppend(Keep(cfg), drained, [item]);
        drained := drained + [item];
        k := k + 1;
        if Wanted(cfg, item) {
          printed := printed + [item];
        }
      }
      FilterMembers(Keep(cfg), drained);
      forall x { WantedIs(cfg, x); }
    }

    method QueueInst(inst: Inst)
      requires Valid()
      modifies this
      ensures Valid() && State() == Enqueue(cfg, old(State()), inst)
    {
      queue := queue + [inst];
      if |queue| > cfg.maxThreshold {
        PrintInsts(cfg.minThreshold);
      }
    }
  }

  // ---------- conservation and size ----------

  lemma DrainConserves(q: QueueState, lower: nat)
    ensures multiset(Drain(q, lower).drained) + multiset(Drain(q, lower).queue)
            == multiset(q.drained) + multiset(q.queue)
    ensures |Drain(q, lower).queue| == if |q.queue| <= lower then |q.queue| else lower
    ensures q.drained <= Drain(q, lower).drained
  {
    SortPermutes(q.queue);
    var sorted := StableSort(q.queue);
    if |sorted| > lower {
      var k := |sorted| - lower;
      assert sorted == sorted[..k] + sorted[k..];
    }
  }

  /** Nothing is lost, nothing is duplicated: at any moment the popped and the
      queued instructions together are exactly the ones that arrived. */
  lemma {:induction false} RunConserves(c: Config, input: seq<Inst>)
    ensures multiset(Run(c, input).drained) + multiset(Run(c, input).queue) == multiset(input)
  {
    if input != [] {
      var front, last := input[..|input| - 1], input[|input| - 1];
      RunConserves(c, front);
      assert input == front + [last];
      var q := Run(c, front);
      DrainConserves(QueueState(q.queue + [last], q.drained), c.minThreshold);
    }
  }

  lemma OutputConserves(c: Config, input: seq<Inst>)
    ensures multiset(Output(c, input)) == multiset(input)
  {
    RunConserves(c, input);
    DrainConserves(Run(c, input), 0);
    assert Drain(Run(c, input), 0).queue == [];
  }

  function Capacity(c: Config): nat {
    if c.minThreshold <= c.maxThreshold then c.maxThreshold else c.minThreshold
  }

  /** How many instructions had arrived when the queue last popped something,
      before the arrival of the instruction with index `t`; zero if it never did. */
  function LastDrain(c: Config, t: nat): (n: nat)
    ensures n <= t
  {
    if t == 0 then 0
    else
      var n := LastDrain(c, t - 1);
      if Held(c, t - 1, n) == Capacity(c) then t else n
  }

  /** The queue length after `t` arrivals, the last drain being at `n`. */
  function Held(c: Config, t: nat, n: nat): nat
    requires n <= t
  {
    if n == 0 then t else c.minThreshold + (t - n)
  }

  lemma {:induction false} FirstDrain(c: Config, t: nat)
    requires t <= Capacity(c) + 1
    ensures LastDrain(c, t) == if t <= Capacity(c) then 0 else t
  {
    if t > 0 { FirstDrain(c, t - 1); }
  }

  /** After the first drain they come at regular intervals, whatever the instructions are. */
  lemma {:induction false} DrainsAreRegular(c: Config, n: nat, j: nat)
    requires n > 0 && LastDrain(c, n) == n && j <= Capacity(c) + 1 - c.minThreshold
    ensures LastDrain(c, n + j) == if j <= Capacity(c) - c.minThreshold then n else n + j
  {
    if j > 0 { DrainsAreRegular(c, n, j - 1); }
  }

  /** The queue length after `|input|` arrivals depends only on the thresholds. */
  lemma {:induction false} QueueLength(c: Config, input: seq<Inst>)
    ensures |Run(c, input).queue| == Held(c, |input|, LastDrain(c, |input|))
    ensures |Run(c, input).queue| <= Capacity(c)
  {
    if input != [] {
      QueueLength(c, input[..|input| - 1]);
      EnqueueLength(c, Run(c, input[..|input| - 1]), input[|input| - 1]);
    }
  }

  lemma EnqueueLength(c: Config, q: QueueState, x: Inst)
    requires |q.queue| <= Capacity(c)
    ensures |Enqueue(c, q, x).queue| == if |q.queue| == Capacity(c) then c.minThreshold else |q.queue| + 1
  {
    DrainConserves(QueueState(q.queue + [x], q.drained), c.minThreshold);
  }

  /** The queue fills up to its maximum and then drops to its minimum. */
  lemma {:induction false} FillsThenDrains(c: Config, input: seq<Inst>)
    requires c.minThreshold <= c.maxThreshold && |input| <= c.maxThreshold + 1
    ensures |input| <= c.maxThreshold ==> Run(c, input) == QueueState(input, [])
    ensures |input| > c.maxThreshold ==>
              |Run(c, input).queue| == c.minThreshold && |Run(c, input).drained| == c.maxThreshold + 1 - c.minThreshold
  {
    if input != [] {
      var front, last := input[..|input| - 1], input[|input| - 1];
      FillsThenDrains(c, front);
      assert front + [last] == input;
      assert Run(c, input) == Enqueue(c, QueueState(front, []), last);
      if |input| > c.maxThreshold { DrainSizes(QueueState(input, []), c.minThreshold); }
    }
  }

  lemma DrainSizes(q: QueueState, lower: nat)
    requires q.drained == [] && |q.queue| > lower
    ensures |Drain(q, lower).queue| == lower && |Drain(q, lower).drained| == |q.queue| - lower
  {
    SortPermutes(q.queue);
  }

  /** Nothing is popped between two drains. */
  lemma {:induction false} DrainedSince(c: Config, input: seq<Inst>)
    ensures var n := LastDrain(c, |input|);
            && Run(c, input).drained == Run(c, input[..n]).drained
            && (n > 0 ==> |Run(c, input[..n]).queue| == c.minThreshold)
            && (n == 0 ==> Run(c, input).drained == [])
  {
    if input != [] {
      var m := |input| - 1;
      var n := LastDrain(c, m + 1);
      assert Held(c, m, LastDrain(c, m)) == |Run(c, input[..m]).queue| <= Capacity(c) by { QueueLength(c, input[..m]); }
      if n == |input| {
        WholePrefix(input);
        assert |Run(c, input).queue| == c.minThreshold by { QueueLength(c, input); }
      } else {
        DrainedSince(c, input[..m]);
        assert input[..m][..n] == input[..n] by { PrefixTwice(input, m, n); }
        assert Run(c, input).drained == Run(c, input[..m]).drained by { NoPop(c, Run(c, input[..m]), input[m]); }
      }
    }
  }

  lemma NoPop(c: Config, q: QueueState, x: Inst)
    requires |q.queue| < Capacity(c)
    ensures Enqueue(c, q, x).drained == q.drained
  {
    SortPermutes(q.queue + [x]);
  }

  // ---------- when the output is the sorted input ----------

  /** Instruction `t` exceeds all but at most `minThreshold` of the ones
      present at the last drain before it arrived. */
  ghost predicate InTime(c: Config, input: seq<Inst>, t: nat)
    requires t < |input|
  {
    Larger(input[..LastDrain(c, t)], input[t].sn) <= c.minThreshold
  }

  ghost predicate ArrivesInTime(c: Config, input: seq<Inst>) {
    forall t :: 0 <= t < |input| ==> InTime(c, input, t)
  }

  /** The assumption documented with the queue: no instruction is out of order
      by more than `limit` places. */
  ghost predicate BoundedDisorder(limit: nat, input: seq<Inst>) {
    forall t {:trigger input[t]} :: 0 <= t < |input| ==> Larger(input[..t], input[t].sn) <= limit
  }

  lemma BoundedDisorderSuffices(c: Config, input: seq<Inst>)
    requires BoundedDisorder(c.minThreshold, input)
    ensures ArrivesInTime(c, input)
  {
    forall t | 0 <= t < |input| ensures InTime(c, input, t) {
      var n := LastDrain(c, t);
      assert input[..t] == input[..n] + input[n..t];
      LargerAppend(input[..n], input[n..t], input[t].sn);
    }
  }

  lemma DrainKeepsSplit(q: QueueState, lower: nat)
    ensures Drain(q, lower).drained + StableSort(Drain(q, lower).queue) == q.drained + StableSort(q.queue)
  {
    var sorted := StableSort(q.queue);
    SortSorts(q.queue);
    if |sorted| <= lower {
      assert StableSort(sorted) == sorted by { SortOfSorted(sorted); }
    } else {
      var k := |sorted| - lower;
      assert StableSort(sorted[k..]) == sorted[k..] by { SortOfSorted(sorted[k..]); }
      assert (q.drained + sorted[..k]) + sorted[k..] == q.drained + sorted by { AppendSplit(q.drained, sorted, k); }
    }
  }

  lemma AppendSplit(d: seq<Inst>, s: seq<Inst>, k: nat)
    requires k <= |s|
    ensures (d + s[..k]) + s[k..] == d + s
  {
  }

  /** If at most `|rest|` of a sorted sequence exceed `x`, they are all in `rest`. */
  lemma PoppedAreSmaller(popped: seq<Inst>, rest: seq<Inst>, x: Inst)
    requires SortedBySn(popped + rest) && Larger(popped + rest, x.sn) <= |rest|
    ensures forall y :: y in popped ==> y.sn <= x.sn
  {
    if i :| 0 <= i < |popped| && popped[i].sn > x.sn {
      var all := popped + rest;
      forall z | z in rest ensures z.sn > x.sn {
        var j :| 0 <= j < |rest| && rest[j] == z;
        assert all[i].sn <= all[|popped| + j].sn;
      }
      LargerAtMostLength(rest, x.sn);
      LargerAtMostLength(popped, x.sn);
      LargerAppend(popped, rest, x.sn);
      assert false;
    }
  }

  lemma PrefixInTime(c: Config, input: seq<Inst>, k: nat)
    requires k <= |input| && ArrivesInTime(c, input)
    ensures ArrivesInTime(c, input[..k])
  {
    var past := input[..k];
    forall t | 0 <= t < |past| ensures InTime(c, past, t) {
      assert InTime(c, input, t);
      assert past[..LastDrain(c, t)] == input[..LastDrain(c, t)] && past[t] == input[t];
    }
  }

  lemma {:induction false} InTimeSplit(c: Config, input: seq<Inst>)
    requires ArrivesInTime(c, input)
    ensures Run(c, input).drained + StableSort(Run(c, input).queue) == StableSort(input)
    decreases |input|
  {
    if input != [] {
      var m := |input| - 1;
      assert forall y :: y in Run(c, input[..m]).drained ==> y.sn <= input[m].sn by {
        var n := LastDrain(c, m);
        PrefixInTime(c, input, n);
        InTimeSplit(c, input[..n]);
        PoppedBeforeAreSmaller(c, input, m);
      }
      PrefixInTime(c, input, m);
      InTimeSplit(c, input[..m]);
      EnqueueKeepsSplit(c, Run(c, input[..m]), input[m]);
    }
  }

  /** Nothing that was popped before an arrival in time exceeds it. */
  lemma PoppedBeforeAreSmaller(c: Config, input: seq<Inst>, m: nat)
    requires m < |input| && ArrivesInTime(c, input)
    requires var q := Run(c, input[..LastDrain(c, m)]);
             q.drained + StableSort(q.queue) == StableSort(input[..LastDrain(c, m)])
    ensures forall y :: y in Run(c, input[..m]).drained ==> y.sn <= input[m].sn
  {
    assert InTime(c, input, m);
    var n, x := LastDrain(c, m), input[m];
    var q := Run(c, input[..n]);
    DrainedSince(c, input[..m]);
    PrefixTwice(input, m, n);
    if n > 0 {
      assert |StableSort(q.queue)| == c.minThreshold by { SortPermutes(q.queue); }
      assert SortedBySn(q.drained + StableSort(q.queue)) by { SortSorts(input[..n]); }
      assert Larger(q.drained + StableSort(q.queue), x.sn) <= c.minThreshold by { LargerSort(input[..n], x.sn); }
      PoppedAreSmaller(q.drained, StableSort(q.queue), x);
    }
  }

  lemma WholePrefix(s: seq<Inst>)
    ensures s[..|s|] == s
  {
  }

  lemma PrefixTwice(s: seq<Inst>, m: nat, n: nat)
    requires n <= m <= |s|
    ensures s[..m][..n] == s[..n]
  {
  }

  lemma EnqueueKeepsSplit(c: Config, q: QueueState, x: Inst)
    requires forall y :: y in q.drained ==> y.sn <= x.sn
    ensures var q' := Enqueue(c, q, x);
            q'.drained + StableSort(q'.queue) == Insert(q.drained + StableSort(q.queue), x)
  {
    var grown := QueueState(q.queue + [x], q.drained);
    InsertBehind(q.drained, StableSort(q.queue), x);
    assert grown.queue[..|q.queue|] == q.queue;
    DrainKeepsSplit(grown, c.minThreshold);
  }

  /** What is popped from time `t` on: the queue of that time and the later arrivals. */
  lemma {:induction false} RunContinues(c: Config, input: seq<Inst>, t: nat)
    requires t <= |input|
    ensures Run(c, input[..t]).drained <= Output(c, input)
    ensures multiset(Output(c, input)[|Run(c, input[..t]).drained|..])
            == multiset(Run(c, input[..t]).queue) + multiset(input[t..])
  {
    DrainedGrows(c, input, t);
    DrainConserves(Run(c, input), 0);
    OutputConserves(c, input);
    RunConserves(c, input[..t]);
    Rejoin(input, t);
    RestOf(Output(c, input), Run(c, input[..t]).drained, Run(c, input[..t]).queue, input[..t], input[t..]);
  }

  lemma Rejoin(s: seq<Inst>, t: nat)
    requires t <= |s|
    ensures s[..t] + s[t..] == s
  {
  }

  lemma RestOf(out: seq<Inst>, early: seq<Inst>, queue: seq<Inst>, a: seq<Inst>, b: seq<Inst>)
    requires early <= out && multiset(out) == multiset(a + b)
    requires multiset(early) + multiset(queue) == multiset(a)
    ensures multiset(out[|early|..]) == multiset(queue) + multiset(b)
  {
    assert out == early + out[|early|..];
    forall z ensures multiset(out[|early|..])[z] == (multiset(queue) + multiset(b))[z] {
      assert multiset(out)[z] == multiset(early)[z] + multiset(out[|early|..])[z];
      assert multiset(a)[z] == multiset(early)[z] + multiset(queue)[z];
    }
  }

  lemma {:induction false} DrainedGrows(c: Config, input: seq<Inst>, t: nat)
    requires t <= |input|
    ensures Run(c, input[..t]).drained <= Run(c, input).drained
  {
    if t == |input| {
      assert input[..t] == input;
    } else {
      var front := input[..|input| - 1];
      DrainedGrows(c, front, t);
      assert front[..t] == input[..t];
      var q := Run(c, front);
      DrainConserves(QueueState(q.queue + [input[|input| - 1]], q.drained), c.minThreshold);
    }
  }

  lemma LateArrivalBreaksOrder(c: Config, input: seq<Inst>, t: nat)
    requires t < |input| && Larger(input[..LastDrain(c, t)], input[t].sn) > c.minThreshold
    ensures !SortedBySn(Output(c, input))
  {
    var n, x := LastDrain(c, t), input[t];
    var early, out := Run(c, input[..t]).drained, Output(c, input);
    assert exists y :: y in early && y.sn > x.sn by {
      DrainedSince(c, input[..t]);
      assert input[..t][..n] == input[..n];
      LargerConserved(c, input[..n], x.sn);
      LargerAtMostLength(Run(c, input[..n]).queue, x.sn);
      LargerAtMostLength(early, x.sn);
    }
    RunContinues(c, input, t);
    assert x == input[t..][0];
    MisplacedPair(early, out, x);
  }

  lemma MisplacedPair(early: seq<Inst>, out: seq<Inst>, x: Inst)
    requires early <= out && x in multiset(out[|early|..])
    requires exists y :: y in early && y.sn > x.sn
    ensures !SortedBySn(out)
  {
  }

  lemma {:induction false} LargerConserved(c: Config, input: seq<Inst>, sn: int)
    ensures Larger(Run(c, input).drained, sn) + Larger(Run(c, input).queue, sn) == Larger(input, sn)
  {
    if input != [] {
      var q, x := Run(c, input[..|input| - 1]), input[|input| - 1];
      LargerConserved(c, input[..|input| - 1], sn);
      LargerAppend(q.queue, [x], sn);
      DrainConservesLarger(QueueState(q.queue + [x], q.drained), c.minThreshold, sn);
    }
  }

  lemma DrainConservesLarger(q: QueueState, lower: nat, sn: int)
    ensures Larger(Drain(q, lower).drained, sn) + Larger(Drain(q, lower).queue, sn)
            == Larger(q.drained, sn) + Larger(q.queue, sn)
  {
    var sorted := StableSort(q.queue);
    LargerSort(q.queue, sn);
    if |sorted| > lower {
      var k := |sorted| - lower;
      LargerAppend(q.drained, sorted[..k], sn);
      LargerAppend(sorted[..k], sorted[k..], sn);
      assert sorted == sorted[..k] + sorted[k..];
    }
  }

  /** The streamed output is the sorted input exactly when every instruction
      arrives in time. */
  lemma OutputIsSortedIff(c: Config, input: seq<Inst>)
    ensures Output(c, input) == StableSort(input) <==> ArrivesInTime(c, input)
    ensures SortedBySn(Output(c, input)) <==> ArrivesInTime(c, input)
  {
    if ArrivesInTime(c, input) {
      InTimeSplit(c, input);
      DrainKeepsSplit(Run(c, input), 0);
      DrainConserves(Run(c, input), 0);
      assert Drain(Run(c, input), 0).queue == [];
      assert Output(c, input) + [] == Output(c, input);
    } else {
      var t :| 0 <= t < |input| && !InTime(c, input, t);
      LateArrivalBreaksOrder(c, input, t);
    }
    SortSorts(input);
  }

  // ---------- the documented limit cannot be raised ----------

  function Numbered(sn: int): Inst {
    Inst(sn, 1, 1, 1, 1, 1, 1, 1, 0, "", "", "")
  }

  function Ascending(n: nat): (s: seq<Inst>)
    ensures |s| == n
    ensures forall i :: 0 <= i < n ==> s[i] == Numbered(2 * (i + 1))
  {
    seq(n, i => Numbered(2 * (i + 1)))
  }

  lemma {:induction false} LargerOfAscending(n: nat, sn: int)
    ensures Larger(Ascending(n), sn) ==
            if sn < 2 then n else if sn / 2 <= n then n - sn / 2 else 0
  {
    if n > 0 {
      assert Ascending(n)[..n - 1] == Ascending(n - 1);
      LargerOfAscending(n - 1, sn);
    }
  }

  /** For all thresholds there is an input with a single instruction that is one
      place further out of order than documented, and it is printed out of order. */
  lemma DisorderLimitIsTight(c: Config)
    requires c.minThreshold <= c.maxThreshold
    ensures exists input :: BoundedDisorder(c.minThreshold + 1, input) && !SortedBySn(Output(c, input))
  {
    var n := c.maxThreshold + 1;
    var late := Numbered(2 * (n - c.minThreshold) - 1);
    var input := Ascending(n) + [late];
    assert BoundedDisorder(c.minThreshold + 1, input) by {
      forall t | 0 <= t < |input| ensures Larger(input[..t], input[t].sn) <= c.minThreshold + 1 {
        AscendingThenLate(n, late, t);
      }
    }
    LateIsMisplaced(c, input);
  }

  lemma LateIsMisplaced(c: Config, input: seq<Inst>)
    requires c.minThreshold <= c.maxThreshold
    requires var n := c.maxThreshold + 1; input == Ascending(n) + [Numbered(2 * (n - c.minThreshold) - 1)]
    ensures !SortedBySn(Output(c, input))
  {
    var n := c.maxThreshold + 1;
    FirstDrain(c, n);
    AscendingThenLate(n, input[n], n);
    LateArrivalBreaksOrder(c, input, n);
  }

  lemma AscendingThenLate(n: nat, late: Inst, t: nat)
    requires t <= n && 0 < late.sn <= 2 * n
    ensures var input := Ascending(n) + [late];
            Larger(input[..t], input[t].sn) == if t < n then 0 else n - late.sn / 2
  {
    var input := Ascending(n) + [late];
    assert input[..t] == Ascending(t);
    LargerOfAscending(t, input[t].sn);
  }
}
