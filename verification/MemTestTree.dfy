/** The tree of caches and testers that stresses the memory system: a recursive builder
    that numbers the subsystems of each level from a shared table of next indices. */
module MemTestTree {
  import opened Common
  import opened DivFacts

  // ---------- how many testers ----------

  /** The number of subsystems `d` levels away from memory: the product of the fan-outs below. */
  function Product(caches: seq<nat>): nat {
    if caches == [] then 1 else Product(caches[..|caches| - 1]) * caches[|caches| - 1]
  }

  /** Testers on the first `d` levels, counted level by level. */
  function TestersUpTo(caches: seq<nat>, testers: seq<nat>, d: nat): nat
    requires d <= |testers| && d <= |caches| + 1
  {
    if d == 0 then 0 else TestersUpTo(caches, testers, d - 1) + testers[d - 1] * Product(caches[..d - 1])
  }

  method NumTesters(caches: seq<nat>, testers: seq<nat>) returns (total: nat)
    requires |testers| == |caches| + 1
    ensures total == TestersUpTo(caches, testers, |testers|)
  {
    var multiplier: seq<nat> := [1];
    for i := 0 to |caches|
      invariant |multiplier| == i + 1
      invariant forall k :: 0 <= k <= i ==> multiplier[k] == Product(caches[..k])
    {
      assert caches[..i + 1][..i] == caches[..i];
      multiplier := multiplier + [multiplier[i] * caches[i]];
    }
    total := 0;
    for i := 0 to |testers|
      invariant total == TestersUpTo(caches, testers, i)
    {
      total := total + testers[i] * multiplier[i];
    }
  }

  datatype SpecError =
    NoCaches | WrongTesterCount | NoTopTesters | NegativeTesters | NoCachesAtLevel | TooManyTesters | SpecOk

  const BLOCK_SIZE: nat := 64

  /** The checks made on a specification given on the command line. */
  method CheckSpec(caches: seq<int>, testers: seq<int>) returns (e: SpecError)
    ensures e.SpecOk? <==> ValidSpec(caches, testers)
    ensures e.NoCaches? <==> caches == []
    ensures e.WrongTesterCount? <==> caches != [] && |testers| != |caches| + 1
    ensures e.NoTopTesters? <==> caches != [] && |testers| == |caches| + 1 && testers[|testers| - 1] == 0
    ensures e.NegativeTesters? <==> caches != [] && |testers| == |caches| + 1 && testers[|testers| - 1] != 0
                                    && exists k :: 0 <= k < |testers| && testers[k] < 0
    ensures e.NoCachesAtLevel? <==> RightShape(caches, testers) && exists k :: 0 <= k < |caches| && caches[k] < 1
    ensures e.TooManyTesters? <==>
              && RightShape(caches, testers) && (forall k :: 0 <= k < |caches| ==> caches[k] >= 1)
              && TestersUpTo(caches, testers, |testers|) > BLOCK_SIZE
  {
    if |caches| < 1 { return NoCaches; }
    if |caches| != |testers| - 1 { return WrongTesterCount; }
    if testers[|testers| - 1] == 0 { return NoTopTesters; }
    for i := 0 to |testers|
      invariant forall k :: 0 <= k < i ==> testers[k] >= 0
    {
      if testers[i] < 0 { return NegativeTesters; }
    }
    for i := 0 to |caches|
      invariant forall k :: 0 <= k < i ==> caches[k] >= 1
    {
      if caches[i] < 1 { return NoCachesAtLevel; }
    }
    var n := NumTesters(caches, testers);
    if n > BLOCK_SIZE { return TooManyTesters; }
    return SpecOk;
  }

  /** One list is one longer than the other, no number of testers is negative, and the last is not zero. */
  ghost predicate RightShape(caches: seq<int>, testers: seq<int>) {
    && |caches| >= 1 && |testers| == |caches| + 1 && testers[|testers| - 1] != 0
    && (forall k :: 0 <= k < |testers| ==> testers[k] >= 0)
  }

  ghost predicate ValidSpec(caches: seq<int>, testers: seq<int>) {
    && RightShape(caches, testers)
    && (forall k :: 0 <= k < |caches| ==> caches[k] >= 1)
    && TestersUpTo(caches, testers, |testers|) <= BLOCK_SIZE
  }

  // ---------- the tree ----------

  /** The cache a subsystem hangs off: the `number`-th tree cache of subsystem (`level`, `index`). */
  datatype CacheRef = CacheRef(level: nat, index: nat, number: nat)

  datatype Parent = Memory | Below(cache: CacheRef)

  datatype Subsystem = Subsystem(testers: nat, treeCaches: nat, hasXBar: bool, parent: Parent)

  /** Subsystems are named by level and index; level 0 is the top. */
  datatype Name = Name(level: nat, index: nat)

  /** A specification the builder can work on. */
  ghost predicate Buildable(caches: seq<nat>, testers: seq<nat>) {
    && |caches| >= 1 && |testers| == |caches| + 1 && testers[|testers| - 1] != 0
    && forall k :: 0 <= k < |caches| ==> caches[k] >= 1
  }

  /** How many subsystems of level `l - 1` hang off one of level `l`. */
  function Fan(caches: seq<nat>, l: nat): nat
    requires 1 <= l <= |caches|
  {
    caches[|caches| - l]
  }

  /** How many subsystems of level `l` are in a subtree rooted at level `top`. */
  function Width(caches: seq<nat>, l: nat, top: nat): nat
    requires l <= top <= |caches|
  {
    if l == top then 1 else Fan(caches, top) * Width(caches, l, top - 1)
  }

  /** How many testers are in a subtree rooted at level `top`. */
  function TestersBelow(caches: seq<nat>, testers: seq<nat>, top: nat): nat
    requires |testers| == |caches| + 1 && top <= |caches|
  {
    testers[|caches| - top] + if top == 0 then 0 else Fan(caches, top) * TestersBelow(caches, testers, top - 1)
  }

  /** What subsystem `i` of level `l` must look like; in particular where it hangs. */
  ghost predicate IsPlaced(caches: seq<nat>, testers: seq<nat>, l: nat, i: nat, s: Subsystem)
    requires Buildable(caches, testers) && l <= |caches|
  {
    && s.testers == testers[|caches| - l]
    && s.treeCaches == (if l == 0 then 0 else Fan(caches, l))
    && (s.hasXBar <==> l > 0 || s.testers > 1)
    && s.parent == ParentOf(caches, l, i)
  }

  /** Subsystem `i` hangs off cache `i % fan` of subsystem `i / fan` one level down. */
  function ParentOf(caches: seq<nat>, l: nat, i: nat): Parent
    requires l <= |caches| && forall k :: 0 <= k < |caches| ==> caches[k] >= 1
  {
    if l == |caches| then Memory
    else
      var fan := Fan(caches, l + 1);
      Below(CacheRef(l + 1, i / fan, i % fan))
  }

  /** The names in use are exactly those the table has given out, and every subsystem is in its place. */
  ghost predicate Consistent(caches: seq<nat>, testers: seq<nat>, table: seq<nat>, subs: map<Name, Subsystem>)
    requires Buildable(caches, testers)
  {
    && |table| == |caches| + 1
    && (forall n :: n in subs <==> n.level <= |caches| && n.index < table[n.level])
    && (forall n :: n in subs ==> n.level <= |caches| && IsPlaced(caches, testers, n.level, n.index, subs[n]))
  }

  /** All subtrees below the subsystems of `level` numbered so far are complete. */
  ghost predicate Complete(caches: seq<nat>, table: seq<nat>, level: nat)
    requires |table| == |caches| + 1 && level <= |caches|
  {
    forall l :: 0 <= l <= level ==> table[l] == table[level] * Width(caches, l, level)
  }

  lemma Associate(a: nat, b: nat, c: nat)
    ensures a * (b * c) == (a * b) * c
  {
  }

  lemma ChildrenStart(caches: seq<nat>, table: seq<nat>, level: nat)
    requires |table| == |caches| + 1 && 1 <= level <= |caches| && Complete(caches, table, level)
    ensures var table' := table[level := table[level] + 1];
            table'[level - 1] == table[level] * Fan(caches, level) && Complete(caches, table', level - 1)
  {
    var j, fan := table[level], Fan(caches, level);
    assert Width(caches, level - 1, level) == fan * 1;
    forall l | 0 <= l <= level - 1 ensures table[l] == table[level - 1] * Width(caches, l, level - 1) {
      Associate(j, fan, Width(caches, l, level - 1));
    }
  }

  lemma ChildrenEnd(caches: seq<nat>, table: seq<nat>, level: nat)
    requires |table| == |caches| + 1 && 1 <= level <= |caches|
    requires table[level - 1] == table[level] * Fan(caches, level) && Complete(caches, table, level - 1)
    ensures Complete(caches, table, level)
  {
    var j, fan := table[level], Fan(caches, level);
    forall l | 0 <= l <= level ensures table[l] == j * Width(caches, l, level) {
      if l < level { Associate(j, fan, Width(caches, l, level - 1)); }
    }
  }

  lemma ChildHangsOff(caches: seq<nat>, level: nat, j: nat, k: nat)
    requires 1 <= level <= |caches| && k < Fan(caches, level) && forall i :: 0 <= i < |caches| ==> caches[i] >= 1
    ensures ParentOf(caches, level - 1, j * Fan(caches, level) + k) == Below(CacheRef(level, j, k))
  {
    DivUnique(j * Fan(caches, level) + k, Fan(caches, level), j, k);
  }

  // ---------- counting the testers of a system ----------

  ghost function AnyName(subs: map<Name, Subsystem>): (n: Name)
    requires subs != map[]
    ensures n in subs
  {
    assert exists n :: n in subs by { assert subs.Keys != {}; }
    var n :| n in subs; n
  }

  /** The testers of all subsystems together. */
  ghost function TestersIn(subs: map<Name, Subsystem>): nat
    decreases subs.Keys
  {
    if subs == map[] then 0
    else
      var n := AnyName(subs);
      subs[n].testers + TestersIn(subs - {n})
  }

  lemma {:induction false} TestersWithout(subs: map<Name, Subsystem>, n: Name)
    requires n in subs
    ensures TestersIn(subs) == subs[n].testers + TestersIn(subs - {n})
    decreases |subs|
  {
    var m := AnyName(subs);
    if m != n {
      assert (subs - {m}) - {n} == (subs - {n}) - {m};
      TestersWithout(subs - {m}, n);
      TestersWithout(subs - {n}, m);
    }
  }

  lemma TestersAdd(subs: map<Name, Subsystem>, n: Name, s: Subsystem)
    requires n !in subs
    ensures TestersIn(subs[n := s]) == TestersIn(subs) + s.testers
  {
    TestersWithout(subs[n := s], n);
    assert subs[n := s] - {n} == subs;
  }

  /** A system as far as it is built: its names and places, and the number of its testers. */
  ghost predicate Built(caches: seq<nat>, testers: seq<nat>, table: seq<nat>, subs: map<Name, Subsystem>, count: nat)
    requires Buildable(caches, testers)
  {
    Consistent(caches, testers, table, subs) && count == TestersIn(subs)
  }

  lemma AddSubsystem(
    caches: seq<nat>, testers: seq<nat>, table: seq<nat>, subs: map<Name, Subsystem>, count: nat, level: nat, s: Subsystem)
    requires Buildable(caches, testers) && level <= |caches| && Built(caches, testers, table, subs, count)
    requires IsPlaced(caches, testers, level, table[level], s)
    ensures Name(level, table[level]) !in subs
    ensures Built(caches, testers, table[level := table[level] + 1], subs[Name(level, table[level]) := s], count + s.testers)
  {
    TestersAdd(subs, Name(level, table[level]), s);
  }

  class Builder {
    const caches: seq<nat>
    const testers: seq<nat>
    const next: array<nat>
    var subsystems: map<Name, Subsystem>
    var testerCount: nat

    constructor (c: seq<nat>, t: seq<nat>)
      requires Buildable(c, t)
      ensures caches == c && testers == t && fresh(next)
      ensures subsystems == map[] && testerCount == 0
      ensures next[..] == seq(|c| + 1, _ => 0)
    {
      caches, testers := c, t;
      next := new nat[|c| + 1](_ => 0);
      subsystems, testerCount := map[], 0;
    }

    ghost predicate Valid()
      reads this, next
    {
      Buildable(caches, testers) && Built(caches, testers, next[..], subsystems, testerCount)
    }

    /** Creates one subsystem with everything above it. */
    method MakeLevel(level: nat, parent: Parent)
      requires Valid() && level <= |caches| && Complete(caches, next[..], level)
      requires parent == ParentOf(caches, level, next[level])
      modifies this, next
      ensures Valid() && Complete(caches, next[..], level)
      ensures next[level] == old(next[level]) + 1
      ensures next[level + 1..] == old(next[level + 1..])
      ensures testerCount == old(testerCount) + TestersBelow(caches, testers, level)
      ensures old(subsystems).Keys <= subsystems.Keys
      decreases level
    {
      var index := next[level];
      ghost var table := next[..];
      Place(level, parent);
      if level > 0 {
        ChildrenStart(caches, table, level);
        MakeChildren(level, index);
        ChildrenEnd(caches, next[..], level);
      }
    }

    /** Numbers one subsystem and puts it in its place. */
    method Place(level: nat, parent: Parent)
      requires Valid() && level <= |caches| && parent == ParentOf(caches, level, next[level])
      modifies this, next
      ensures Valid() && next[..] == old(next[..])[level := old(next[level]) + 1]
      ensures testerCount == old(testerCount) + testers[|caches| - level]
      ensures old(subsystems).Keys <= subsystems.Keys
    {
      var index := next[level];
      var ntesters := testers[|caches| - level];
      var sub := Subsystem(ntesters, if level == 0 then 0 else Fan(caches, level), level > 0 || ntesters > 1, parent);
      ghost var table, subs, count := next[..], subsystems, testerCount;
      next[level] := index + 1;
      subsystems := subsystems[Name(level, index) := sub];
      testerCount := testerCount + ntesters;
      assert next[..] == table[level := index + 1];
      assert Built(caches, testers, table[level := index + 1], subsystems, testerCount) by {
        AddSubsystem(caches, testers, table, subs, count, level, sub);
      }
    }

    /** Creates the subtree of each tree cache of subsystem `index` on `level`. */
    method MakeChildren(level: nat, index: nat)
      requires Valid() && 1 <= level <= |caches| && Complete(caches, next[..], level - 1)
      requires next[level - 1] == index * Fan(caches, level)
      modifies this, next
      ensures Valid() && Complete(caches, next[..], level - 1)
      ensures next[level - 1] == (index + 1) * Fan(caches, level)
      ensures next[level..] == old(next[level..])
      ensures testerCount == old(testerCount) + Fan(caches, level) * TestersBelow(caches, testers, level - 1)
      ensures old(subsystems).Keys <= subsystems.Keys
      decreases level, 0
    {
      var fan := Fan(caches, level);
      var k := 0;
      while k < fan
        invariant 0 <= k <= fan && Valid() && Complete(caches, next[..], level - 1)
        invariant next[level - 1] == index * fan + k
        invariant next[level..] == old(next[level..])
        invariant testerCount == old(testerCount) + k * TestersBelow(caches, testers, level - 1)
        invariant old(subsystems).Keys <= subsystems.Keys
      {
        ChildHangsOff(caches, level, index, k);
        MakeLevel(level - 1, Below(CacheRef(level, index, k)));
        OneMore(k, TestersBelow(caches, testers, level - 1));
        k := k + 1;
      }
      OneMore(index, fan);
    }
  }

  /** Builds the whole system. It holds as many testers as announced, each level has as
      many subsystems as the fan-outs below it multiply to, and all are in their place. */
  method BuildTree(caches: seq<nat>, testers: seq<nat>) returns (b: Builder)
    requires Buildable(caches, testers)
    ensures b.caches == caches && b.testers == testers && b.Valid()
    ensures TestersIn(b.subsystems) == b.testerCount == TestersUpTo(caches, testers, |testers|)
    ensures forall l :: 0 <= l <= |caches| ==> b.next[l] == Product(caches[..|caches| - l])
    ensures forall n :: n in b.subsystems <==> n.level <= |caches| && n.index < Product(caches[..|caches| - n.level])
    ensures forall n :: n in b.subsystems ==>
              && n.level <= |caches| && b.subsystems[n].testers == testers[|caches| - n.level]
              && b.subsystems[n].treeCaches == (if n.level == 0 then 0 else caches[|caches| - n.level])
              && (b.subsystems[n].hasXBar <==> n.level > 0 || testers[|caches|] > 1)
              && b.subsystems[n].parent == (if n.level == |caches| then Memory else
                   Below(CacheRef(n.level + 1, n.index / caches[|caches| - n.level - 1], n.index % caches[|caches| - n.level - 1])))
  {
    b := new Builder(caches, testers);
    var n := |caches|;
    assert b.next[..][n] == 0;
    b.MakeLevel(n, Memory);
    assert caches[..0] == [];
    HornerTesters(caches, testers, n);
    assert Product(caches[..0]) * TestersBelow(caches, testers, n) == TestersBelow(caches, testers, n);
    forall l | 0 <= l <= n ensures b.next[l] == Product(caches[..n - l]) {
      HornerWidth(caches, l, n);
      assert b.next[..][l] == 1 * Width(caches, l, n);
    }
    assert forall l :: 0 <= l <= n ==> b.next[..][l] == b.next[l];
    WholeTree(caches, testers, b.next[..], b.subsystems);
  }

  /** The tree written out: which subsystems there are, what is in each, and which cache it hangs off. */
  lemma WholeTree(caches: seq<nat>, testers: seq<nat>, table: seq<nat>, subs: map<Name, Subsystem>)
    requires Buildable(caches, testers) && Consistent(caches, testers, table, subs)
    requires forall l :: 0 <= l <= |caches| ==> table[l] == Product(caches[..|caches| - l])
    ensures forall n :: n in subs <==> n.level <= |caches| && n.index < Product(caches[..|caches| - n.level])
    ensures forall n :: n in subs ==>
              && n.level <= |caches| && subs[n].testers == testers[|caches| - n.level]
              && subs[n].treeCaches == (if n.level == 0 then 0 else caches[|caches| - n.level])
              && (subs[n].hasXBar <==> n.level > 0 || testers[|caches|] > 1)
              && subs[n].parent == (if n.level == |caches| then Memory else
                   Below(CacheRef(n.level + 1, n.index / caches[|caches| - n.level - 1], n.index % caches[|caches| - n.level - 1])))
  {
  }

  lemma {:induction false} HornerWidth(caches: seq<nat>, l: nat, top: nat)
    requires l <= top <= |caches|
    ensures Product(caches[..|caches| - top]) * Width(caches, l, top) == Product(caches[..|caches| - l])
  {
    if l < top {
      var d := |caches| - top;
      HornerWidth(caches, l, top - 1);
      assert caches[..d + 1][..d] == caches[..d];
      Associate(Product(caches[..d]), Fan(caches, top), Width(caches, l, top - 1));
    }
  }

  /** Counting testers level by level agrees with counting them subtree by subtree. */
  lemma {:induction false} HornerTesters(caches: seq<nat>, testers: seq<nat>, top: nat)
    requires |testers| == |caches| + 1 && top <= |caches|
    ensures TestersUpTo(caches, testers, |caches| - top) + Product(caches[..|caches| - top]) * TestersBelow(caches, testers, top)
            == TestersUpTo(caches, testers, |testers|)
  {
    var d := |caches| - top;
    var p, t := Product(caches[..d]), testers[d];
    if top == 0 {
      assert TestersBelow(caches, testers, 0) == t;
    } else {
      HornerTesters(caches, testers, top - 1);
      assert caches[..d + 1][..d] == caches[..d];
      Associate(p, Fan(caches, top), TestersBelow(caches, testers, top - 1));
      Distribute(p, t, Fan(caches, top) * TestersBelow(caches, testers, top - 1));
    }
  }

  lemma Distribute(a: nat, b: nat, c: nat)
    ensures a * (b + c) == b * a + a * c
  {
  }
}
