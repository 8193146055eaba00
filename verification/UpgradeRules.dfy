/** Checkpoint migration as rules over version tags: which tags are applied in
    which round, and when the resolution gets stuck. */
module UpgradeRules {

  type Tag = string

  /** `tagSet` holds the tags with an upgrader, `untagSet` the tags with a
      downgrader, `deps` what every known tag depends on. */
  datatype Rules = Rules(tagSet: set<Tag>, untagSet: set<Tag>, deps: map<Tag, set<Tag>>)

  /** No tag is used twice, and every dependency names a known tag. */
  ghost predicate Audited(r: Rules) {
    && r.tagSet !! r.untagSet
    && r.deps.Keys == r.tagSet + r.untagSet
    && forall t :: t in r.deps ==> r.deps[t] <= r.deps.Keys
  }

  function ToApply(r: Rules, tags: set<Tag>): set<Tag> {
    (r.tagSet - tags) + (r.untagSet * tags)
  }

  function Ready(r: Rules, toApply: set<Tag>, tags: set<Tag>): set<Tag>
    requires toApply <= r.deps.Keys
  {
    set t | t in toApply && r.deps[t] <= tags
  }

  function AfterRound(r: Rules, ready: set<Tag>, tags: set<Tag>): set<Tag> {
    (tags + ready * r.tagSet) - ready * r.untagSet
  }

  datatype Outcome = Done(tags: set<Tag>) | Stuck(remaining: set<Tag>, tags: set<Tag>)

  lemma ReadyShrinks(r: Rules, toApply: set<Tag>, tags: set<Tag>)
    requires toApply <= r.deps.Keys && Ready(r, toApply, tags) != {}
    ensures |toApply - Ready(r, toApply, tags)| < |toApply|
  {
    var ready := Ready(r, toApply, tags);
    assert toApply == (toApply - ready) + ready;
  }

  /** The resolution, one round of ready tags at a time. */
  function Resolve(r: Rules, toApply: set<Tag>, tags: set<Tag>): Outcome
    requires toApply <= r.deps.Keys
    decreases |toApply|
  {
    var ready := Ready(r, toApply, tags);
    if toApply == {} then Done(tags)
    else if ready == {} then Stuck(toApply, tags)
    else
      ReadyShrinks(r, toApply, tags);
      Resolve(r, toApply - ready, AfterRound(r, ready, tags))
  }

  function Elements(s: seq<Tag>): set<Tag> { set t | t in s }

  /** `applied` runs the ready tags of each round in some order. */
  ghost predicate IsRun(r: Rules, toApply: set<Tag>, tags: set<Tag>, applied: seq<Tag>)
    requires toApply <= r.deps.Keys
    decreases |toApply|
  {
    var ready := Ready(r, toApply, tags);
    if toApply == {} || ready == {} then applied == []
    else
      ReadyShrinks(r, toApply, tags);
      && |ready| <= |applied|
      && Elements(applied[..|ready|]) == ready
      && IsRun(r, toApply - ready, AfterRound(r, ready, tags), applied[|ready|..])
  }

  // ---------- every run ----------

  lemma {:induction false} DistinctElements(s: seq<Tag>)
    ensures |Elements(s)| <= |s|
    ensures |Elements(s)| == |s| ==> forall i, j :: 0 <= i < j < |s| ==> s[i] != s[j]
  {
    if s != [] {
      var front, last := s[..|s| - 1], s[|s| - 1];
      DistinctElements(front);
      assert Elements(s) == Elements(front) + {last};
    } else {
      assert Elements(s) == {};
    }
  }

  /** What is pending throughout a resolution: upgraders whose tag is absent, downgraders whose tag is present. */
  ghost predicate Pending(r: Rules, toApply: set<Tag>, tags: set<Tag>) {
    && toApply <= r.deps.Keys
    && toApply * r.tagSet !! tags
    && toApply * r.untagSet <= tags
  }

  lemma PendingInitially(r: Rules, tags: set<Tag>)
    requires Audited(r)
    ensures Pending(r, ToApply(r, tags), tags)
  {
  }

  lemma PendingKept(r: Rules, toApply: set<Tag>, tags: set<Tag>)
    requires Audited(r) && Pending(r, toApply, tags)
    ensures var ready := Ready(r, toApply, tags);
            Pending(r, toApply - ready, AfterRound(r, ready, tags))
  {
  }

  /** A run applies every pending tag if the resolution succeeds, and everything but the remaining ones if not. */
  lemma {:induction false} AppliedTags(r: Rules, toApply: set<Tag>, tags: set<Tag>, applied: seq<Tag>)
    requires toApply <= r.deps.Keys && IsRun(r, toApply, tags, applied)
    ensures match Resolve(r, toApply, tags)
            case Done(_) => Elements(applied) == toApply
            case Stuck(remaining, _) => Elements(applied) == toApply - remaining && remaining <= toApply && remaining != {}
    decreases |toApply|
  {
    var ready := Ready(r, toApply, tags);
    if toApply == {} || ready == {} {
      assert Elements(applied) == {};
    } else {
      ReadyShrinks(r, toApply, tags);
      AppliedTags(r, toApply - ready, AfterRound(r, ready, tags), applied[|ready|..]);
      ElementsSplit(applied, |ready|);
    }
  }

  /** No tag is applied twice. */
  lemma {:induction false} AppliedOnce(r: Rules, toApply: set<Tag>, tags: set<Tag>, applied: seq<Tag>)
    requires toApply <= r.deps.Keys && IsRun(r, toApply, tags, applied)
    ensures forall i, j :: 0 <= i < j < |applied| ==> applied[i] != applied[j]
    decreases |toApply|
  {
    var ready := Ready(r, toApply, tags);
    if toApply != {} && ready != {} {
      ReadyShrinks(r, toApply, tags);
      AppliedOnce(r, toApply - ready, AfterRound(r, ready, tags), applied[|ready|..]);
      AppliedTags(r, toApply - ready, AfterRound(r, ready, tags), applied[|ready|..]);
      DistinctElements(applied[..|ready|]);
      RestIsFresh(applied, |ready|, ready, toApply - ready);
    }
  }

  lemma ElementsSplit(s: seq<Tag>, n: nat)
    requires n <= |s|
    ensures Elements(s) == Elements(s[..n]) + Elements(s[n..])
  {
    assert s == s[..n] + s[n..];
  }

  /** A tag is never applied before everything it depends on was in the
      checkpoint or had been added by an upgrader that ran earlier. */
  lemma {:induction false} AppliedInOrder(r: Rules, toApply: set<Tag>, tags: set<Tag>, applied: seq<Tag>, k: nat)
    requires Audited(r) && Pending(r, toApply, tags) && IsRun(r, toApply, tags, applied)
    requires k < |applied|
    ensures applied[k] in toApply
    ensures r.deps[applied[k]] <= tags + Elements(applied[..k]) * r.tagSet
    decreases |toApply|
  {
    var ready := Ready(r, toApply, tags);
    var n := |ready|;
    if k < n {
      assert applied[..n][k] in Elements(applied[..n]);
    } else {
      ReadyShrinks(r, toApply, tags);
      PendingKept(r, toApply, tags);
      AppliedInOrder(r, toApply - ready, AfterRound(r, ready, tags), applied[n..], k - n);
      ElementsSplit(applied[..k], n);
      SameSlices(applied, n, k);
    }
  }

  lemma SameSlices(s: seq<Tag>, n: nat, k: nat)
    requires n <= k < |s|
    ensures s[..k][..n] == s[..n] && s[..k][n..] == s[n..][..k - n] && s[n..][k - n] == s[k]
  {
  }

  lemma RestIsFresh(s: seq<Tag>, n: nat, first: set<Tag>, rest: set<Tag>)
    requires n <= |s| && Elements(s[..n]) <= first && Elements(s[n..]) <= rest && first !! rest
    requires forall i, j :: 0 <= i < j < |s[n..]| ==> s[n..][i] != s[n..][j]
    requires forall i, j :: 0 <= i < j < n ==> s[..n][i] != s[..n][j]
    ensures forall i, j :: 0 <= i < j < |s| ==> s[i] != s[j]
  {
    forall i, j | 0 <= i < j < |s| ensures s[i] != s[j] {
      if j < n {
        assert s[..n][i] != s[..n][j];
      } else {
        assert s[n..][j - n] in Elements(s[n..]);
        if i < n { assert s[..n][i] in Elements(s[..n]); }
        else { assert s[n..][i - n] != s[n..][j - n]; }
      }
    }
  }

  /** A successful resolution ends with every upgrader's tag and no downgrader's tag. */
  lemma {:induction false} ResolvedTags(r: Rules, toApply: set<Tag>, tags: set<Tag>)
    requires Audited(r) && Pending(r, toApply, tags)
    ensures var o := Resolve(r, toApply, tags);
            o.Done? ==> o.tags == (tags + toApply * r.tagSet) - toApply * r.untagSet
    decreases |toApply|
  {
    var ready := Ready(r, toApply, tags);
    if toApply == {} {
      assert (tags + toApply * r.tagSet) - toApply * r.untagSet == tags;
    } else if ready != {} {
      ReadyShrinks(r, toApply, tags);
      PendingKept(r, toApply, tags);
      ResolvedTags(r, toApply - ready, AfterRound(r, ready, tags));
    }
  }

  lemma FinalTags(r: Rules, tags: set<Tag>)
    requires Audited(r)
    ensures var o := Resolve(r, ToApply(r, tags), tags);
            o.Done? ==> o.tags == (tags + r.tagSet) - r.untagSet && ToApply(r, o.tags) == {}
  {
    PendingInitially(r, tags);
    ResolvedTags(r, ToApply(r, tags), tags);
  }

  // ---------- building a run ----------

  lemma AfterOne(r: Rules, done: set<Tag>, tag: Tag, tags: set<Tag>)
    requires Audited(r) && tag in r.deps && tag !in done
    ensures AfterRound(r, done + {tag}, tags) ==
            if tag in r.tagSet then AfterRound(r, done, tags) + {tag} else AfterRound(r, done, tags) - {tag}
  {
  }

  /** Whatever continues from the current state completes `applied` to a run from the initial state. */
  ghost predicate LeadsTo(r: Rules, all: set<Tag>, initial: set<Tag>, applied: seq<Tag>, toApply: set<Tag>, tags: set<Tag>)
    requires all <= r.deps.Keys && toApply <= r.deps.Keys
  {
    && Resolve(r, all, initial) == Resolve(r, toApply, tags)
    && forall later {:trigger applied + later} :: IsRun(r, toApply, tags, later) ==> IsRun(r, all, initial, applied + later)
  }

  lemma LeadsToStart(r: Rules, all: set<Tag>, initial: set<Tag>)
    requires all <= r.deps.Keys
    ensures LeadsTo(r, all, initial, [], all, initial)
  {
    forall later | IsRun(r, all, initial, later) ensures IsRun(r, all, initial, [] + later) {
      assert [] + later == later;
    }
  }

  lemma LeadsToStep(r: Rules, all: set<Tag>, initial: set<Tag>, applied: seq<Tag>,
                    toApply: set<Tag>, tags: set<Tag>, round: seq<Tag>)
    requires all <= r.deps.Keys && Audited(r) && Pending(r, toApply, tags)
    requires LeadsTo(r, all, initial, applied, toApply, tags) && Ready(r, toApply, tags) != {}
    requires |round| == |Ready(r, toApply, tags)| && Elements(round) == Ready(r, toApply, tags)
    ensures var ready := Ready(r, toApply, tags);
            && LeadsTo(r, all, initial, applied + round, toApply - ready, AfterRound(r, ready, tags))
            && Pending(r, toApply - ready, AfterRound(r, ready, tags))
            && |toApply - ready| < |toApply|
  {
    var ready := Ready(r, toApply, tags);
    ReadyShrinks(r, toApply, tags);
    PendingKept(r, toApply, tags);
    forall later | IsRun(r, toApply - ready, AfterRound(r, ready, tags), later)
      ensures IsRun(r, all, initial, applied + round + later)
    {
      RoundFirst(r, toApply, tags, round, later);
      assert applied + (round + later) == applied + round + later;
    }
  }

  lemma LeadsToEnd(r: Rules, all: set<Tag>, initial: set<Tag>, applied: seq<Tag>, toApply: set<Tag>, tags: set<Tag>)
    requires all <= r.deps.Keys && toApply <= r.deps.Keys && LeadsTo(r, all, initial, applied, toApply, tags)
    requires toApply == {} || Ready(r, toApply, tags) == {}
    ensures IsRun(r, all, initial, applied)
    ensures Resolve(r, all, initial) == if toApply == {} then Done(tags) else Stuck(toApply, tags)
  {
    assert IsRun(r, toApply, tags, []);
    assert applied + [] == applied;
  }

  // ---------- when the resolution aborts ----------

  /** No tag to be applied depends on a tag that is to be removed. */
  ghost predicate NoRemovedDependency(r: Rules, toApply: set<Tag>) {
    forall t :: t in toApply && t in r.deps ==> r.deps[t] !! r.untagSet
  }

  ghost predicate IsCycle(r: Rules, within: set<Tag>, c: seq<Tag>) {
    && c != []
    && Elements(c) <= within && within <= r.deps.Keys
    && (forall i :: 0 <= i < |c| - 1 ==> c[i] in r.deps && c[i + 1] in r.deps[c[i]])
    && c[|c| - 1] in r.deps && c[0] in r.deps[c[|c| - 1]]
  }

  ghost predicate HasCycle(r: Rules, within: set<Tag>) {
    exists c :: IsCycle(r, within, c)
  }

  ghost predicate IsChain(r: Rules, within: set<Tag>, p: seq<Tag>) {
    && p != [] && within <= r.deps.Keys
    && (forall i :: 0 <= i < |p| ==> p[i] in within)
    && (forall i :: 0 <= i < |p| - 1 ==> p[i + 1] in r.deps[p[i]])
  }

  lemma {:induction false} ChainIsShort(s: seq<Tag>, within: set<Tag>)
    requires forall i, j :: 0 <= i < j < |s| ==> s[i] != s[j]
    requires forall i :: 0 <= i < |s| ==> s[i] in within
    ensures |s| <= |within|
  {
    if s != [] {
      var front, last := s[..|s| - 1], s[|s| - 1];
      assert within == (within - {last}) + {last};
      ChainIsShort(front, within - {last});
    }
  }

  /** A set in which every tag waits for another one of the set contains a cycle. */
  lemma {:induction false} FollowChain(r: Rules, within: set<Tag>, p: seq<Tag>)
    requires IsChain(r, within, p)
    requires forall i, j :: 0 <= i < j < |p| ==> p[i] != p[j]
    requires forall t :: t in within ==> r.deps[t] * within != {}
    ensures HasCycle(r, within)
    decreases |within| - |p|
  {
    ChainIsShort(p, within);
    var last := p[|p| - 1];
    var next :| next in r.deps[last] * within;
    if k :| 0 <= k < |p| && p[k] == next {
      var c := p[k..];
      assert c[|c| - 1] == last && c[0] == next;
      assert IsCycle(r, within, c);
    } else {
      var q := p + [next];
      ChainIsShort(q, within);
      FollowChain(r, within, q);
    }
  }

  lemma WaitingSetHasCycle(r: Rules, within: set<Tag>)
    requires within <= r.deps.Keys && within != {}
    requires forall t :: t in within ==> r.deps[t] * within != {}
    ensures HasCycle(r, within)
  {
    var t :| t in within;
    FollowChain(r, within, [t]);
  }

  /** Progress is impossible exactly when the pending tags wait for each other. */
  lemma StuckMeansWaiting(r: Rules, toApply: set<Tag>, tags: set<Tag>)
    requires Audited(r) && Pending(r, toApply, tags) && NoRemovedDependency(r, toApply)
    requires r.tagSet <= tags + toApply
    requires toApply != {} && Ready(r, toApply, tags) == {}
    ensures HasCycle(r, toApply)
  {
    forall t | t in toApply ensures r.deps[t] * toApply != {} {
      assert t !in Ready(r, toApply, tags);
      var d :| d in r.deps[t] && d !in tags;
      assert d in r.deps[t] * toApply;
    }
    WaitingSetHasCycle(r, toApply);
  }

  lemma CycleGrows(r: Rules, small: set<Tag>, large: set<Tag>)
    requires HasCycle(r, small) && small <= large <= r.deps.Keys
    ensures HasCycle(r, large)
  {
    var c :| IsCycle(r, small, c);
    assert IsCycle(r, large, c);
  }

  lemma {:induction false} StuckHasCycle(r: Rules, toApply: set<Tag>, tags: set<Tag>)
    requires Audited(r) && Pending(r, toApply, tags) && NoRemovedDependency(r, toApply)
    requires r.tagSet <= tags + toApply
    requires Resolve(r, toApply, tags).Stuck?
    ensures HasCycle(r, toApply)
    decreases |toApply|
  {
    var ready := Ready(r, toApply, tags);
    if ready == {} {
      StuckMeansWaiting(r, toApply, tags);
    } else {
      ReadyShrinks(r, toApply, tags);
      PendingKept(r, toApply, tags);
      StuckHasCycle(r, toApply - ready, AfterRound(r, ready, tags));
      CycleGrows(r, toApply - ready, toApply);
    }
  }

  lemma CycleIsNeverReady(r: Rules, toApply: set<Tag>, tags: set<Tag>, c: seq<Tag>)
    requires Audited(r) && Pending(r, toApply, tags) && NoRemovedDependency(r, toApply)
    requires IsCycle(r, toApply, c)
    ensures IsCycle(r, toApply - Ready(r, toApply, tags), c)
  {
    forall i | 0 <= i < |c| ensures c[i] !in Ready(r, toApply, tags) {
      var next := if i == |c| - 1 then c[0] else c[i + 1];
      assert c[i] in Elements(c) && next in Elements(c);
      assert next in r.deps[c[i]] && next !in r.untagSet;
      assert next in toApply * r.tagSet;
    }
  }

  lemma {:induction false} CycleGetsStuck(r: Rules, toApply: set<Tag>, tags: set<Tag>, c: seq<Tag>)
    requires Audited(r) && Pending(r, toApply, tags) && NoRemovedDependency(r, toApply)
    requires IsCycle(r, toApply, c)
    ensures Resolve(r, toApply, tags).Stuck?
    decreases |toApply|
  {
    assert c[0] in Elements(c);
    var ready := Ready(r, toApply, tags);
    if ready != {} {
      ReadyShrinks(r, toApply, tags);
      PendingKept(r, toApply, tags);
      CycleIsNeverReady(r, toApply, tags, c);
      CycleGetsStuck(r, toApply - ready, AfterRound(r, ready, tags), c);
    }
  }

  /** The resolution aborts exactly when the tags still to be applied contain a dependency cycle. */
  lemma AbortsIffCycle(r: Rules, tags: set<Tag>)
    requires Audited(r) && NoRemovedDependency(r, ToApply(r, tags))
    ensures Resolve(r, ToApply(r, tags), tags).Stuck? <==> HasCycle(r, ToApply(r, tags))
  {
    var toApply := ToApply(r, tags);
    PendingInitially(r, tags);
    if Resolve(r, toApply, tags).Stuck? {
      StuckHasCycle(r, toApply, tags);
    }
    if c :| IsCycle(r, toApply, c) {
      CycleGetsStuck(r, toApply, tags, c);
    }
  }

  // ---------- dependencies on tags that are removed ----------

  /** The documented meaning of such a dependency: the tag is gone before its dependant runs. */
  ghost predicate RemovedFirst(r: Rules, tags: set<Tag>, applied: seq<Tag>) {
    forall k, d :: 0 <= k < |applied| && applied[k] in r.deps && d in r.deps[applied[k]] && d in r.untagSet ==>
      d !in tags || d in applied[..k]
  }

  lemma OrderingOf(s: set<Tag>) returns (q: seq<Tag>)
    ensures |q| == |s| && Elements(q) == s
  {
    if s == {} {
      q := [];
    } else {
      var t :| t in s;
      q := OrderingOf(s - {t});
      assert s == (s - {t}) + {t};
      q := [t] + q;
      assert Elements(q) == {t} + Elements(q[1..]);
    }
  }

  /** In some order of each round, `t` runs while the tag `d` it depends on is still there. */
  lemma {:induction false} RunsTooEarly(r: Rules, toApply: set<Tag>, tags: set<Tag>, t: Tag, d: Tag)
      returns (applied: seq<Tag>, k: nat)
    requires Audited(r) && Pending(r, toApply, tags)
    requires t in toApply && d in r.deps[t] && d in r.untagSet
    requires Resolve(r, toApply, tags).Done?
    ensures IsRun(r, toApply, tags, applied)
    ensures k < |applied| && applied[k] == t && d !in applied[..k] && d in tags
    decreases |toApply|
  {
    var ready := Ready(r, toApply, tags);
    ReadyShrinks(r, toApply, tags);
    PendingKept(r, toApply, tags);
    if t in ready {
      applied := RunStartingWith(r, toApply, tags, t);
      k := 0;
    } else {
      var later, j := RunsTooEarly(r, toApply - ready, AfterRound(r, ready, tags), t, d);
      var q := OrderingOf(ready);
      applied, k := q + later, |q| + j;
      RoundFirst(r, toApply, tags, q, later);
      assert d !in ready;
      NotAmongFirst(q, later, j, d);
    }
  }

  lemma NotAmongFirst(q: seq<Tag>, later: seq<Tag>, j: nat, d: Tag)
    requires j <= |later| && d !in Elements(q) && d !in later[..j]
    ensures d !in (q + later)[..|q| + j]
  {
    assert (q + later)[..|q| + j] == q + later[..j];
  }

  lemma RunStartingWith(r: Rules, toApply: set<Tag>, tags: set<Tag>, t: Tag) returns (applied: seq<Tag>)
    requires toApply <= r.deps.Keys && t in Ready(r, toApply, tags)
    ensures IsRun(r, toApply, tags, applied) && applied != [] && applied[0] == t
  {
    var ready := Ready(r, toApply, tags);
    var q := OrderingOf(ready - {t});
    assert ready == (ready - {t}) + {t};
    assert Elements([t] + q) == {t} + Elements(q);
    var later := SomeRun(r, toApply - ready, AfterRound(r, ready, tags));
    RoundFirst(r, toApply, tags, [t] + q, later);
    applied := [t] + q + later;
  }

  lemma RoundFirst(r: Rules, toApply: set<Tag>, tags: set<Tag>, q: seq<Tag>, later: seq<Tag>)
    requires toApply <= r.deps.Keys && Ready(r, toApply, tags) != {}
    requires |q| == |Ready(r, toApply, tags)| && Elements(q) == Ready(r, toApply, tags)
    requires IsRun(r, toApply - Ready(r, toApply, tags), AfterRound(r, Ready(r, toApply, tags), tags), later)
    ensures IsRun(r, toApply, tags, q + later)
  {
    assert (q + later)[..|q|] == q && (q + later)[|q|..] == later;
  }

  lemma {:induction false} SomeRun(r: Rules, toApply: set<Tag>, tags: set<Tag>) returns (applied: seq<Tag>)
    requires toApply <= r.deps.Keys
    ensures IsRun(r, toApply, tags, applied)
    decreases |toApply|
  {
    var ready := Ready(r, toApply, tags);
    if toApply == {} || ready == {} {
      applied := [];
    } else {
      ReadyShrinks(r, toApply, tags);
      var later := SomeRun(r, toApply - ready, AfterRound(r, ready, tags));
      var q := OrderingOf(ready);
      RoundFirst(r, toApply, tags, q, later);
      applied := q + later;
    }
  }

  /** For migrations that succeed, the documented order is kept by every iteration
      order exactly when no applied tag depends on another tag that is removed. */
  lemma RemovedFirstIff(r: Rules, tags: set<Tag>)
    requires Audited(r) && Resolve(r, ToApply(r, tags), tags).Done?
    ensures (forall applied :: IsRun(r, ToApply(r, tags), tags, applied) ==> RemovedFirst(r, tags, applied))
            <==> NoRemovedDependency(r, ToApply(r, tags))
  {
    var toApply := ToApply(r, tags);
    PendingInitially(r, tags);
    if NoRemovedDependency(r, toApply) {
      forall applied | IsRun(r, toApply, tags, applied) ensures RemovedFirst(r, tags, applied) {
        forall k | 0 <= k < |applied| ensures applied[k] in toApply {
          AppliedInOrder(r, toApply, tags, applied, k);
        }
      }
    } else {
      var t :| t in toApply && t in r.deps && !(r.deps[t] !! r.untagSet);
      var d :| d in r.deps[t] && d in r.untagSet;
      var applied, k := RunsTooEarly(r, toApply, tags, t, d);
      assert !RemovedFirst(r, tags, applied);
    }
  }

  /** A tag that depends on a removed tag which the checkpoint never had blocks the whole migration. */
  lemma {:induction false} AbsentRemovedTagBlocks(r: Rules, toApply: set<Tag>, tags: set<Tag>, t: Tag, d: Tag)
    requires Audited(r) && Pending(r, toApply, tags)
    requires t in toApply && d in r.deps[t] && d in r.untagSet && d !in tags
    ensures Resolve(r, toApply, tags).Stuck?
    decreases |toApply|
  {
    var ready := Ready(r, toApply, tags);
    if ready != {} {
      ReadyShrinks(r, toApply, tags);
      PendingKept(r, toApply, tags);
      AbsentRemovedTagBlocks(r, toApply - ready, AfterRound(r, ready, tags), t, d);
    }
  }

  /** The smallest instance: the upgrader "u" depends on the downgraded tag "d". If the
      checkpoint has "d", the upgrader may run before the downgrader; if not, nothing can run. */
  lemma RemovedDependencyExample()
    ensures var r := Rules({"u"}, {"d"}, map["u" := {"d"}, "d" := {}]);
            && Audited(r)
            && Resolve(r, ToApply(r, {"d"}), {"d"}) == Done({"u"})
            && (exists applied :: IsRun(r, ToApply(r, {"d"}), {"d"}, applied) && !RemovedFirst(r, {"d"}, applied))
            && Resolve(r, ToApply(r, {}), {}).Stuck?
  {
    var r := Rules({"u"}, {"d"}, map["u" := {"d"}, "d" := {}]);
    var toApply := ToApply(r, {"d"});
    assert toApply == {"u", "d"} && Ready(r, toApply, {"d"}) == toApply;
    assert AfterRound(r, toApply, {"d"}) == {"u"};
    assert toApply - toApply == {};
    FinalTags(r, {"d"});
    assert "u" in toApply && "d" in r.deps["u"] && "d" in r.untagSet;
    RemovedFirstIff(r, {"d"});
    assert "u" in ToApply(r, {});
    AbsentRemovedTagBlocks(r, ToApply(r, {}), {}, "u", "d");
  }
}
