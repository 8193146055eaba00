/** The part of a trace the pipeline viewer prints: where it starts and stops reading, and exactly when that and the
    reorder queue together print the requested region whole and in order. */
module TraceRegion {
  import opened SnSort
  import opened ReorderQueue

  // ---------- the whole trace ----------

  /** Records before the first one inside the requested region are not read at all. */
  function Skipped(c: Config, records: seq<Inst>): seq<Inst>
    decreases |records|
  {
    if records == [] then []
    else
      var r := records[0];
      if c.tickStart != 0 then
        if r.fetch >= c.tickStart then records
        else if Reaches(r, c.tickStart) then records[1..]
        else Skipped(c, records[1..])
      else if c.snStart != 0 then
        if r.sn >= c.snStart then records else Skipped(c, records[1..])
      else records
  }

  /** Some line of the record after the fetch line carries a tick of at least `tick`. */
  predicate Reaches(r: Inst, tick: int) {
    r.decode >= tick || r.rename >= tick || r.dispatch >= tick ||
    r.issue >= tick || r.complete >= tick || r.retire >= tick
  }

  /** The fetch line of `r` lies so far behind the region that reading stops. */
  predicate Stops(c: Config, r: Inst) {
    || (c.tickStop > 0 && r.fetch > c.tickStop + c.tickDrift)
    || (c.snStop > 0 && r.sn > c.snStop + c.maxThreshold)
  }

  function UntilStop(c: Config, records: seq<Inst>): seq<Inst> {
    if records == [] then []
    else
      var front := UntilStop(c, records[..|records| - 1]);
      if |front| < |records| - 1 || Stops(c, records[|records| - 1]) then front
      else records
  }

  lemma {:induction false} StopsAt(c: Config, s: seq<Inst>, k: nat)
    requires k <= |s| && UntilStop(c, s[..k]) == s[..k] && (k < |s| ==> Stops(c, s[k]))
    ensures UntilStop(c, s) == s[..k]
    decreases |s|
  {
    if k == |s| {
      assert s[..k] == s;
    } else {
      var front := s[..|s| - 1];
      assert front[..k] == s[..k];
      StopsAt(c, front, k);
    }
  }

  /** The second documented assumption: a record that stops the reader is not
      followed by one that belongs to the region. */
  ghost predicate BoundedDrift(c: Config, records: seq<Inst>) {
    forall i, j {:trigger records[i], records[j]} :: 0 <= i < j < |records| ==>
      && (c.tickStop > 0 ==> records[j].fetch >= records[i].fetch - c.tickDrift)
      && (c.snStop > 0 ==> records[j].sn >= records[i].sn - c.maxThreshold)
  }

  lemma {:induction false} SkippedIsSuffix(c: Config, records: seq<Inst>) returns (k: nat)
    requires c.tickStart >= 0 && c.snStart >= 0
    ensures k <= |records| && Skipped(c, records) == records[k..]
    ensures forall i :: 0 <= i < k ==> !Wanted(c, records[i])
  {
    if records == [] {
      k := 0;
    } else {
      var r := records[0];
      var here := if c.tickStart != 0 then r.fetch >= c.tickStart
                  else if c.snStart != 0 then r.sn >= c.snStart else true;
      if here {
        k := 0;
      } else if c.tickStart != 0 && Reaches(r, c.tickStart) {
        k := 1;
      } else {
        k := SkippedIsSuffix(c, records[1..]);
        forall i | 0 <= i < k + 1 ensures !Wanted(c, records[i]) {
          if i > 0 { assert records[i] == records[1..][i - 1]; }
        }
        k := k + 1;
      }
    }
  }

  lemma {:induction false} UntilStopIsPrefix(c: Config, s: seq<Inst>)
    ensures UntilStop(c, s) <= s
    ensures |UntilStop(c, s)| < |s| ==> Stops(c, s[|UntilStop(c, s)|])
  {
    if s != [] { UntilStopIsPrefix(c, s[..|s| - 1]); }
  }

  lemma SegmentKeepsDisorder(limit: nat, s: seq<Inst>, a: nat, b: nat)
    requires a <= b <= |s| && BoundedDisorder(limit, s)
    ensures BoundedDisorder(limit, s[a..b])
  {
    var seg := s[a..b];
    forall t | 0 <= t < |seg| ensures Larger(seg[..t], seg[t].sn) <= limit {
      assert s[..a + t] == s[..a] + seg[..t];
      LargerAppend(s[..a], seg[..t], seg[t].sn);
      assert s[a + t] == seg[t];
    }
  }

  lemma ThreeParts(s: seq<Inst>, a: nat, b: nat)
    requires a <= b <= |s|
    ensures s[..a] + s[a..b] + s[b..] == s
  {
  }

  lemma {:induction false} RegionSelects(keep: Inst -> bool, a: seq<Inst>, mid: seq<Inst>, b: seq<Inst>)
    requires forall x :: x in a || x in b ==> !keep(x)
    ensures Filter(keep, StableSort(mid)) == Filter(keep, StableSort(a + mid + b))
  {
    FilterSort(keep, mid);
    FilterSort(keep, a + mid + b);
    FilterAppend(keep, a + mid, b);
    FilterAppend(keep, a, mid);
    FilterNone(keep, a);
    FilterNone(keep, b);
    assert [] + Filter(keep, mid) + [] == Filter(keep, mid);
  }

  /** Skipping the start, stopping early and draining piecemeal together lose
      nothing of the region and print it in order. */
  lemma RegionIsComplete(c: Config, records: seq<Inst>)
    requires c.tickStart >= 0 && c.snStart >= 0
    requires BoundedDisorder(c.minThreshold, records) && BoundedDrift(c, records)
    ensures Select(c, Output(c, UntilStop(c, Skipped(c, records)))) == Select(c, StableSort(records))
  {
    var a := SkippedIsSuffix(c, records);
    UntilStopIsPrefix(c, records[a..]);
    var b := a + |UntilStop(c, records[a..])|;
    var mid := records[a..b];
    assert UntilStop(c, records[a..]) == mid;
    assert Output(c, mid) == StableSort(mid) by {
      SegmentKeepsDisorder(c.minThreshold, records, a, b);
      BoundedDisorderSuffices(c, mid);
      OutputIsSortedIff(c, mid);
    }
    forall x | x in records[b..] ensures !Wanted(c, x) {
      var j :| b <= j < |records| && records[j] == x;
      assert Stops(c, records[b]);
    }
    RegionSelects(Keep(c), records[..a], mid, records[b..]);
    ThreeParts(records, a, b);
  }

  // ---------- exactly when the region is printed whole and in order ----------

  /** The last `m` elements. */
  function Top(s: seq<Inst>, m: nat): seq<Inst> { if |s| <= m then s else s[|s| - m..] }

  /** What has left the queue when instruction `t` arrives: all that had come at the last drain but the largest. */
  function Popped(c: Config, input: seq<Inst>, t: nat): seq<Inst>
    requires t <= |input|
  {
    AllButLargest(c, input[..LastDrain(c, t)])
  }

  function AllButLargest(c: Config, past: seq<Inst>): seq<Inst> {
    SortPermutes(past);
    if |past| <= c.minThreshold then [] else StableSort(past)[..|past| - c.minThreshold]
  }

  /** No wanted instruction comes when a larger wanted one has left the queue. */
  ghost predicate WantedInTime(c: Config, input: seq<Inst>) {
    forall t :: 0 <= t < |input| ==> NotOvertaken(c, input, t)
  }

  ghost predicate NotOvertaken(c: Config, input: seq<Inst>, t: nat)
    requires t < |input|
  {
    Wanted(c, input[t]) ==> NoneAbove(c, Popped(c, input, t), input[t].sn)
  }

  ghost predicate NoneAbove(c: Config, s: seq<Inst>, sn: int) {
    forall y :: y in s && Wanted(c, y) ==> y.sn <= sn
  }

  lemma {:induction false} TopInsert(s: seq<Inst>, t: seq<Inst>, x: Inst, m: nat)
    requires |s| >= m && |t| >= m && Top(s, m) == Top(t, m)
    ensures Top(Insert(s, x), m) == Top(Insert(t, x), m)
    ensures |Insert(s, x)| == |s| + 1 && |Insert(t, x)| == |t| + 1
    decreases m
  {
    InsertPermutes(s, x);
    InsertPermutes(t, x);
    if m > 0 {
      var s', t', last := s[..|s| - 1], t[..|t| - 1], s[|s| - 1];
      assert last == Top(s, m)[m - 1] == Top(t, m)[m - 1] == t[|t| - 1];
      assert Top(s', m - 1) == Top(s, m)[..m - 1] == Top(t, m)[..m - 1] == Top(t', m - 1);
      if last.sn <= x.sn {
        assert Top(s, m - 1) == Top(s, m)[1..] == Top(t, m)[1..] == Top(t, m - 1);
        TopLast(s, x, m);
        TopLast(t, x, m);
      } else {
        TopInsert(s', t', x, m - 1);
        TopLast(Insert(s', x), last, m);
        TopLast(Insert(t', x), last, m);
      }
    }
  }

  lemma TopLast(s: seq<Inst>, x: Inst, m: nat)
    requires 0 < m <= |s| + 1
    ensures Top(s + [x], m) == Top(s, m - 1) + [x]
  {
  }

  /** The queue holds the largest of all that have come, as many as a drain leaves. */
  ghost predicate HoldsTop(c: Config, q: QueueState, sorted: seq<Inst>) {
    && |q.queue| >= c.minThreshold && |sorted| >= c.minThreshold
    && Top(StableSort(q.queue), c.minThreshold) == Top(sorted, c.minThreshold)
  }

  lemma GrownSort(queue: seq<Inst>, x: Inst)
    ensures StableSort(queue + [x]) == Insert(StableSort(queue), x)
  {
    assert (queue + [x])[..|queue|] == queue;
  }

  lemma SortTwice(s: seq<Inst>, k: nat)
    requires k <= |s|
    ensures |StableSort(s)| == |s| && StableSort(StableSort(s)[k..]) == StableSort(s)[k..]
  {
    SortPermutes(s);
    SortSorts(s);
    SortOfSorted(StableSort(s)[k..]);
  }

  lemma SortOfTop(s: seq<Inst>, m: nat)
    ensures StableSort(Top(StableSort(s), m)) == Top(StableSort(s), m)
  {
    SortSorts(s);
    SortOfSorted(Top(StableSort(s), m));
  }

  /** Enqueueing sorts the grown queue or not, and cuts it down to its largest or not. */
  lemma {:induction false} EnqueuedSort(c: Config, q: QueueState, x: Inst)
    ensures var sorted, q' := Insert(StableSort(q.queue), x), Enqueue(c, q, x);
            && |sorted| == |q.queue| + 1 && |q'.queue| == |StableSort(q'.queue)|
            && StableSort(q'.queue) == if |sorted| > c.maxThreshold then Top(sorted, c.minThreshold) else sorted
  {
    var grown, sorted := q.queue + [x], Insert(StableSort(q.queue), x);
    assert StableSort(grown) == sorted by { GrownSort(q.queue, x); }
    assert |sorted| == |grown| by { SortPermutes(grown); }
    if |grown| > c.maxThreshold {
      DrainedQueue(QueueState(grown, q.drained), c.minThreshold);
    }
  }

  lemma DrainedQueue(q: QueueState, lower: nat)
    ensures Drain(q, lower).queue == StableSort(Drain(q, lower).queue) == Top(StableSort(q.queue), lower)
  {
    DrainIsTop(q, lower);
    SortOfTop(q.queue, lower);
  }

  lemma DrainIsTop(q: QueueState, lower: nat)
    ensures Drain(q, lower).queue == Top(StableSort(q.queue), lower)
  {
  }

  lemma EnqueueHoldsTop(c: Config, q: QueueState, sorted: seq<Inst>, x: Inst)
    requires HoldsTop(c, q, sorted)
    ensures HoldsTop(c, Enqueue(c, q, x), Insert(sorted, x))
  {
    SortPermutes(q.queue);
    TopInsert(StableSort(q.queue), sorted, x, c.minThreshold);
    EnqueuedSort(c, q, x);
  }

  /** Before anything is popped the queue holds everything. */
  lemma EnqueueHoldsAll(c: Config, q: QueueState, sorted: seq<Inst>, x: Inst)
    requires StableSort(q.queue) == sorted && |q.queue| <= Capacity(c)
    ensures var q' := Enqueue(c, q, x);
            if |q.queue| < Capacity(c) then StableSort(q'.queue) == Insert(sorted, x) else HoldsTop(c, q', Insert(sorted, x))
  {
    EnqueuedSort(c, q, x);
  }

  lemma {:induction false} TopIsKept(c: Config, input: seq<Inst>)
    ensures var q := Run(c, input);
            if LastDrain(c, |input|) == 0 then StableSort(q.queue) == StableSort(input)
            else HoldsTop(c, q, StableSort(input))
  {
    if input != [] {
      var m := |input| - 1;
      TopIsKept(c, input[..m]);
      QueueLength(c, input[..m]);
      if LastDrain(c, m) == 0 {
        EnqueueHoldsAll(c, Run(c, input[..m]), StableSort(input[..m]), input[m]);
      } else {
        EnqueueHoldsTop(c, Run(c, input[..m]), StableSort(input[..m]), input[m]);
      }
    }
  }

  /** So what has been popped is everything else. */
  lemma PoppedIsDrained(c: Config, input: seq<Inst>)
    ensures multiset(Popped(c, input, |input|)) == multiset(Run(c, input).drained)
  {
    var n := LastDrain(c, |input|);
    DrainedSince(c, input);
    if n > 0 {
      LastDrainAgain(c, |input|);
      PoppedAtDrain(c, input[..n]);
    }
  }

  lemma PoppedAtDrain(c: Config, past: seq<Inst>)
    requires past != [] && LastDrain(c, |past|) == |past| && |Run(c, past).queue| == c.minThreshold
    ensures multiset(AllButLargest(c, past)) == multiset(Run(c, past).drained)
  {
    var q, sorted := Run(c, past), StableSort(past);
    assert HoldsTop(c, q, sorted) by { TopIsKept(c, past); }
    assert multiset(sorted) == multiset(q.drained) + multiset(q.queue) && |sorted| == |past| by {
      SortPermutes(past);
      RunConserves(c, past);
    }
    OthersPopped(sorted, c.minThreshold, q.queue, q.drained);
    assert |past| == c.minThreshold ==> sorted[..|past| - c.minThreshold] == [];
  }

  lemma OthersPopped(sorted: seq<Inst>, m: nat, queue: seq<Inst>, drained: seq<Inst>)
    requires multiset(sorted) == multiset(drained) + multiset(queue) && |queue| == m <= |sorted|
    requires Top(StableSort(queue), m) == Top(sorted, m)
    ensures multiset(sorted[..|sorted| - m]) == multiset(drained)
  {
    assert multiset(sorted[|sorted| - m..]) == multiset(queue) by {
      SortPermutes(queue);
      TopIsTail(StableSort(queue), m);
      TopIsTail(sorted, m);
      assert StableSort(queue)[0..] == StableSort(queue);
    }
    SplitOff(sorted, |sorted| - m, multiset(drained), multiset(queue));
  }

  lemma TopIsTail(s: seq<Inst>, m: nat)
    requires m <= |s|
    ensures Top(s, m) == s[|s| - m..]
  {
  }

  lemma {:induction false} LastDrainAgain(c: Config, t: nat)
    ensures LastDrain(c, LastDrain(c, t)) == LastDrain(c, t)
  {
    if t > 0 { LastDrainAgain(c, t - 1); }
  }

  lemma SplitOff(s: seq<Inst>, k: nat, a: multiset<Inst>, b: multiset<Inst>)
    requires k <= |s| && multiset(s) == a + b && multiset(s[k..]) == b
    ensures multiset(s[..k]) == a
  {
    assert s == s[..k] + s[k..];
    assert multiset(s) == multiset(s[..k]) + b;
    forall z ensures multiset(s[..k])[z] == a[z] {
      assert (multiset(s[..k]) + b)[z] == (a + b)[z];
    }
  }

  // ---------- selecting from the queue ----------

  lemma SelectSorted(c: Config, s: seq<Inst>, k: nat)
    requires k <= |s|
    ensures |StableSort(s)| == |s|
    ensures Select(c, StableSort(s)[..k]) + StableSort(Select(c, StableSort(s)[k..])) == StableSort(Select(c, s))
  {
    var sorted := StableSort(s);
    SortTwice(s, k);
    assert Select(c, sorted) == StableSort(Select(c, s)) by { FilterSort(Keep(c), s); }
    assert StableSort(Select(c, sorted[k..])) == Select(c, sorted[k..]) by { FilterSort(Keep(c), sorted[k..]); }
    Rejoin(sorted, k);
    SelectAppend(c, sorted[..k], sorted[k..]);
  }

  lemma SelectAppend(c: Config, a: seq<Inst>, b: seq<Inst>)
    ensures Select(c, a + b) == Select(c, a) + Select(c, b)
  {
    FilterAppend(Keep(c), a, b);
  }

  /** A drain keeps what the wanted instructions popped and queued come to. */
  lemma DrainKeepsSelected(c: Config, q: QueueState, lower: nat)
    ensures var q' := Drain(q, lower);
            Select(c, q'.drained) + StableSort(Select(c, q'.queue)) == Select(c, q.drained) + StableSort(Select(c, q.queue))
  {
    var sorted, q' := StableSort(q.queue), Drain(q, lower);
    assert |sorted| == |q.queue| by { SortPermutes(q.queue); }
    var k := if |sorted| <= lower then 0 else |sorted| - lower;
    assert q'.queue == sorted[k..] && q'.drained == q.drained + sorted[..k] by { DrainSplits(q, lower, k); }
    SelectSorted(c, q.queue, k);
    SelectAppend(c, q.drained, sorted[..k]);
    Regrouped(Select(c, q.drained), Select(c, sorted[..k]), StableSort(Select(c, sorted[k..])));
  }

  lemma DrainSplits(q: QueueState, lower: nat, k: nat)
    requires var n := |StableSort(q.queue)|; k == if n <= lower then 0 else n - lower
    ensures var sorted := StableSort(q.queue);
            Drain(q, lower).queue == sorted[k..] && Drain(q, lower).drained == q.drained + sorted[..k]
  {
    assert q.drained + [] == q.drained;
  }

  lemma Regrouped(a: seq<Inst>, b: seq<Inst>, d: seq<Inst>)
    ensures (a + b) + d == a + (b + d)
  {
  }

  lemma {:induction false} EnqueueKeepsSelected(c: Config, q: QueueState, x: Inst)
    requires Wanted(c, x) ==> NoneAbove(c, q.drained, x.sn)
    ensures var q', all := Enqueue(c, q, x), Select(c, q.drained) + StableSort(Select(c, q.queue));
            Select(c, q'.drained) + StableSort(Select(c, q'.queue)) == if Wanted(c, x) then Insert(all, x) else all
  {
    var grown := QueueState(q.queue + [x], q.drained);
    DrainKeepsSelected(c, grown, c.minThreshold);
    assert grown.queue[..|q.queue|] == q.queue;
    if Wanted(c, x) {
      FilterMembers(Keep(c), q.drained);
      InsertBehind(Select(c, q.drained), StableSort(Select(c, q.queue)), x);
      GrownSort(Select(c, q.queue), x);
    } else {
      assert Select(c, q.queue) + [] == Select(c, q.queue);
    }
  }

  lemma {:induction false} SelectedSplit(c: Config, input: seq<Inst>)
    requires WantedInTime(c, input)
    ensures Select(c, Run(c, input).drained) + StableSort(Select(c, Run(c, input).queue)) == StableSort(Select(c, input))
  {
    if input != [] {
      var m := |input| - 1;
      var x := input[m];
      EarlierInTime(c, input);
      SelectedSplit(c, input[..m]);
      assert Wanted(c, x) ==> NoneAbove(c, Run(c, input[..m]).drained, x.sn) by {
        assert NotOvertaken(c, input, m);
        NotOvertakenMeans(c, input, m);
      }
      EnqueueKeepsSelected(c, Run(c, input[..m]), x);
      if Wanted(c, x) {
        GrownSort(Select(c, input[..m]), x);
      } else {
        assert Select(c, input[..m]) + [] == Select(c, input[..m]);
      }
    }
  }

  lemma NotOvertakenMeans(c: Config, input: seq<Inst>, t: nat)
    requires t < |input|
    ensures NotOvertaken(c, input, t) <==> (Wanted(c, input[t]) ==> NoneAbove(c, Run(c, input[..t]).drained, input[t].sn))
  {
    var past := input[..t];
    PoppedOfPrefix(c, input, t, t);
    PoppedIsDrained(c, past);
    SameMembers(Popped(c, past, t), Run(c, past).drained);
  }

  lemma SameMembers(a: seq<Inst>, b: seq<Inst>)
    requires multiset(a) == multiset(b)
    ensures forall y :: y in a <==> y in b
  {
    forall y ensures y in a <==> y in b {
      assert y in a <==> y in multiset(a);
      assert y in b <==> y in multiset(b);
    }
  }

  lemma EarlierInTime(c: Config, input: seq<Inst>)
    requires input != [] && WantedInTime(c, input)
    ensures WantedInTime(c, input[..|input| - 1])
  {
    var front := input[..|input| - 1];
    forall t | 0 <= t < |front| ensures NotOvertaken(c, front, t) {
      assert NotOvertaken(c, input, t);
      SameInPrefix(c, input, |front|, t);
    }
  }

  lemma SameInPrefix(c: Config, input: seq<Inst>, k: nat, t: nat)
    requires t < k <= |input|
    ensures NotOvertaken(c, input[..k], t) == NotOvertaken(c, input, t)
  {
    PoppedOfPrefix(c, input, k, t);
  }

  lemma PoppedOfPrefix(c: Config, input: seq<Inst>, k: nat, t: nat)
    requires t <= k <= |input|
    ensures Popped(c, input[..k], t) == Popped(c, input, t)
  {
    PrefixTwice(input, k, LastDrain(c, t));
  }

  /** What is printed is the wanted part of the input in order exactly when all wanted instructions are in time. */
  lemma SelectedIffInTime(c: Config, input: seq<Inst>)
    ensures Select(c, Output(c, input)) == StableSort(Select(c, input)) <==> WantedInTime(c, input)
  {
    if WantedInTime(c, input) {
      SelectedSplit(c, input);
      DrainKeepsSelected(c, Run(c, input), 0);
      DrainConserves(Run(c, input), 0);
      var q := Drain(Run(c, input), 0);
      assert q.queue == [] && Select(c, q.drained) + [] == Select(c, q.drained);
    } else {
      var t :| 0 <= t < |input| && !NotOvertaken(c, input, t);
      OvertakenBreaksOrder(c, input, t);
      SortSorts(Select(c, input));
    }
  }

  lemma OvertakenBreaksOrder(c: Config, input: seq<Inst>, t: nat)
    requires t < |input| && !NotOvertaken(c, input, t)
    ensures !SortedBySn(Select(c, Output(c, input)))
  {
    NotOvertakenMeans(c, input, t);
    var y :| y in Run(c, input[..t]).drained && Wanted(c, y) && y.sn > input[t].sn;
    PoppedTooEarly(c, input, t, y);
  }

  lemma PoppedTooEarly(c: Config, input: seq<Inst>, t: nat, y: Inst)
    requires t < |input| && Wanted(c, input[t]) && y in Run(c, input[..t]).drained && Wanted(c, y) && y.sn > input[t].sn
    ensures !SortedBySn(Select(c, Output(c, input)))
  {
    var early, out, x := Run(c, input[..t]).drained, Output(c, input), input[t];
    assert early <= out && x in multiset(out[|early|..]) by {
      RunContinues(c, input, t);
      assert x == input[t..][0];
    }
    assert early == out[..|early|];
    Rejoin(out, |early|);
    SelectedPair(c, early, out[|early|..], y, x);
  }

  lemma SelectedPair(c: Config, a: seq<Inst>, b: seq<Inst>, y: Inst, x: Inst)
    requires y in a && x in b && Wanted(c, x) && Wanted(c, y) && y.sn > x.sn
    ensures !SortedBySn(Select(c, a + b))
  {
    SelectAppend(c, a, b);
    FilterMembers(Keep(c), a);
    FilterMembers(Keep(c), b);
    assert y in Select(c, a) && x in Select(c, b);
    var i :| 0 <= i < |Select(c, a)| && Select(c, a)[i] == y;
    var j :| 0 <= j < |Select(c, b)| && Select(c, b)[j] == x;
    assert Select(c, a + b)[i] == y && Select(c, a + b)[|Select(c, a)| + j] == x;
  }

  // ---------- the region ----------

  /** What is behind the record that stops the reader, and that record itself. */
  function Unread(c: Config, records: seq<Inst>): seq<Inst> {
    var todo := Skipped(c, records);
    UntilStopIsPrefix(c, todo);
    todo[|UntilStop(c, todo)|..]
  }

  /** Nothing wanted is left unread, and no wanted instruction that is read is overtaken. */
  ghost predicate RegionInTime(c: Config, records: seq<Inst>) {
    && (forall x :: x in Unread(c, records) ==> !Wanted(c, x))
    && WantedInTime(c, UntilStop(c, Skipped(c, records)))
  }

  lemma SelectPermuted(c: Config, s: seq<Inst>, t: seq<Inst>)
    requires multiset(s) == multiset(t)
    ensures |Select(c, s)| == |Select(c, t)|
  {
    var a, b := Select(c, s), Select(c, t);
    forall z ensures multiset(a)[z] == multiset(b)[z] {
      FilterCounts(Keep(c), s, z);
      FilterCounts(Keep(c), t, z);
    }
    assert multiset(a) == multiset(b);
    assert |multiset(a)| == |a| && |multiset(b)| == |b|;
  }

  lemma SelectParts(c: Config, a: seq<Inst>, mid: seq<Inst>, b: seq<Inst>)
    requires forall x :: x in a ==> !Wanted(c, x)
    ensures Select(c, a + mid + b) == Select(c, mid) + Select(c, b)
  {
    SelectAppend(c, a + mid, b);
    SelectAppend(c, a, mid);
    FilterNone(Keep(c), a);
    assert [] + Select(c, mid) == Select(c, mid);
  }

  /** Reading part of the trace through the queue prints the region whole and in order exactly when that holds. */
  lemma RegionIsCompleteIff(c: Config, records: seq<Inst>)
    requires c.tickStart >= 0 && c.snStart >= 0
    ensures Select(c, Output(c, UntilStop(c, Skipped(c, records)))) == Select(c, StableSort(records))
            <==> RegionInTime(c, records)
  {
    var a := SkippedIsSuffix(c, records);
    UntilStopIsPrefix(c, records[a..]);
    var mid, rest := UntilStop(c, records[a..]), Unread(c, records);
    assert records == records[..a] + mid + rest by { ThreeParts(records, a, a + |mid|); }
    SelectParts(c, records[..a], mid, rest);
    assert Select(c, StableSort(records)) == StableSort(Select(c, mid) + Select(c, rest)) by { FilterSort(Keep(c), records); }
    PartIsComplete(c, mid, rest);
  }

  lemma PartIsComplete(c: Config, mid: seq<Inst>, rest: seq<Inst>)
    ensures Select(c, Output(c, mid)) == StableSort(Select(c, mid) + Select(c, rest))
            <==> (forall x :: x in rest ==> !Wanted(c, x)) && WantedInTime(c, mid)
  {
    if forall x :: x in rest ==> !Wanted(c, x) {
      FilterNone(Keep(c), rest);
      assert Select(c, mid) + [] == Select(c, mid);
      SelectedIffInTime(c, mid);
    } else {
      FilterMembers(Keep(c), rest);
      var x :| x in rest && Wanted(c, x);
      assert x in Select(c, rest);
      SortPermutes(Select(c, mid) + Select(c, rest));
      OutputConserves(c, mid);
      SelectPermuted(c, Output(c, mid), mid);
    }
  }

  /** Where reading starts. With a start tick: at the first record fetched at or after it, or behind an earlier record
      that has a later event there. With a start number: at the first record that has it. */
  lemma {:induction false} SkippedIs(c: Config, records: seq<Inst>) returns (k: nat)
    ensures k <= |records| && Skipped(c, records) == records[k..]
    ensures c.tickStart == 0 && c.snStart == 0 ==> k == 0
    ensures c.tickStart == 0 && c.snStart != 0 ==>
              (forall i :: 0 <= i < k ==> records[i].sn < c.snStart) && (k < |records| ==> records[k].sn >= c.snStart)
    ensures c.tickStart != 0 ==>
              && (forall i :: 0 <= i < k ==> records[i].fetch < c.tickStart)
              && (forall i :: 0 <= i < k - 1 ==> LatestLine(records[i]) < c.tickStart)
              && (k < |records| ==> records[k].fetch >= c.tickStart || (k > 0 && LatestLine(records[k - 1]) >= c.tickStart))
    decreases |records|
  {
    if records == [] {
      k := 0;
    } else {
      var r := records[0];
      var here := if c.tickStart != 0 then r.fetch >= c.tickStart else if c.snStart != 0 then r.sn >= c.snStart else true;
      if here {
        k := 0;
      } else if c.tickStart != 0 && Reaches(r, c.tickStart) {
        k := 1;
      } else {
        k := SkippedIs(c, records[1..]);
        k := k + 1;
      }
    }
  }

  /** The largest tick on the lines of a record behind its fetch line. */
  function LatestLine(r: Inst): int {
    var a := if r.decode > r.rename then r.decode else r.rename;
    var b := if r.dispatch > r.issue then r.dispatch else r.issue;
    var d := if r.complete > r.retire then r.complete else r.retire;
    var e := if a > b then a else b;
    if e > d then e else d
  }

  /** Reading stops before the first record that lies too far behind the region, by tick or by number. */
  lemma {:induction false} UntilStopIs(c: Config, s: seq<Inst>)
    ensures var n := |UntilStop(c, s)|;
            && UntilStop(c, s) <= s
            && (n < |s| ==> (c.tickStop > 0 && s[n].fetch > c.tickStop + c.tickDrift)
                            || (c.snStop > 0 && s[n].sn > c.snStop + c.maxThreshold))
            && forall i :: 0 <= i < n ==> (c.tickStop > 0 ==> s[i].fetch <= c.tickStop + c.tickDrift)
                                          && (c.snStop > 0 ==> s[i].sn <= c.snStop + c.maxThreshold)
  {
    if s != [] { UntilStopIs(c, s[..|s| - 1]); }
  }

  /** Whatever is printed was read and requested. */
  lemma PrintedIsRequested(c: Config, records: seq<Inst>, x: Inst)
    requires c.tickStart >= 0 && c.snStart >= 0
    requires x in Select(c, Output(c, UntilStop(c, Skipped(c, records))))
    ensures x in records && Requested(c, x)
  {
    var k := SkippedIs(c, records);
    var mid := UntilStop(c, records[k..]);
    UntilStopIs(c, records[k..]);
    FilterMembers(Keep(c), Output(c, mid));
    OutputConserves(c, mid);
    SameMembers(Output(c, mid), mid);
    WantedIs(c, x);
    assert x in records[k..];
  }

  /** Every requested record is in the selected part of the sorted trace, as often as in the trace. */
  lemma RequestedIsSelected(c: Config, records: seq<Inst>, x: Inst)
    requires Requested(c, x)
    ensures multiset(Select(c, StableSort(records)))[x] == multiset(records)[x]
  {
    FilterCounts(Keep(c), StableSort(records), x);
    SortPermutes(records);
    WantedIs(c, x);
  }

  lemma SelectedIsSorted(c: Config, records: seq<Inst>)
    ensures SortedBySn(Select(c, StableSort(records)))
  {
    FilterSort(Keep(c), records);
    SortSorts(Select(c, records));
  }

  method PrintTrace(c: Config, records: seq<Inst>) returns (out: seq<Inst>)
    ensures out == Select(c, Output(c, UntilStop(c, Skipped(c, records))))
  {
    var q := new PrintQueue(c);
    var todo := Skipped(c, records);
    var k := 0;
    assert todo[..0] == [];
    while k < |todo| && !Stops(c, todo[k])
      invariant 0 <= k <= |todo| && q.cfg == c && q.Valid()
      invariant q.State() == Run(c, todo[..k])
      invariant UntilStop(c, todo[..k]) == todo[..k]
    {
      assert todo[..k + 1][..k] == todo[..k];
      q.QueueInst(todo[k]);
      k := k + 1;
    }
    q.PrintInsts(0);
    out := q.printed;
    StopsAt(c, todo, k);
  }

  /** Reads a trace and prints the requested region. */
  method ProcessTrace(c: Config, records: seq<Inst>) returns (out: seq<Inst>)
    requires c.tickStart >= 0 && c.snStart >= 0
    ensures out == Select(c, Output(c, UntilStop(c, Skipped(c, records))))
    ensures out == Select(c, StableSort(records)) <==> RegionInTime(c, records)
    ensures BoundedDisorder(c.minThreshold, records) && BoundedDrift(c, records)
            ==> out == Select(c, StableSort(records))
    ensures forall x :: x in out ==>
              && x in records && (c.onlyCommitted ==> x.retire != 0)
              && (c.snStart > 0 ==> x.sn >= c.snStart) && (c.snStop > 0 ==> x.sn <= c.snStop)
              && (c.tickStart > 0 ==> x.fetch >= c.tickStart) && (c.tickStop > 0 ==> x.fetch <= c.tickStop)
    ensures BoundedDisorder(c.minThreshold, records) && BoundedDrift(c, records) ==>
              && (forall i, j :: 0 <= i < j < |out| ==> out[i].sn <= out[j].sn)
              && forall x: Inst :: (c.onlyCommitted ==> x.retire != 0)
                             && (c.snStart > 0 ==> x.sn >= c.snStart) && (c.snStop > 0 ==> x.sn <= c.snStop)
                             && (c.tickStart > 0 ==> x.fetch >= c.tickStart) && (c.tickStop > 0 ==> x.fetch <= c.tickStop)
                             ==> multiset(out)[x] == multiset(records)[x]
  {
    out := PrintTrace(c, records);
    RegionIsCompleteIff(c, records);
    forall x | x in out ensures x in records && Requested(c, x) { PrintedIsRequested(c, records, x); }
    if BoundedDisorder(c.minThreshold, records) && BoundedDrift(c, records) {
      RegionIsComplete(c, records);
      SelectedIsSorted(c, records);
      forall x | Requested(c, x) ensures multiset(out)[x] == multiset(records)[x] { RequestedIsSelected(c, records, x); }
    }
  }
}
