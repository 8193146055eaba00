/** The checkpoint upgrader: loading the migration scripts, auditing their
    dependencies and applying them to a checkpoint. */
module Upgraders {
  import opened Common
  import opened UpgradeRules

  /** The variables of one migration script. */
  datatype Script = Script(
    tag: Tag, depends: seq<Tag>, fwdDepends: seq<Tag>, isUpgrader: bool, legacyVersion: Option<int>)

  // ---------- what the scripts declare ----------

  /** Which script owns a tag, or a legacy version: the last one that claims it. */
  function TagOwner(scripts: seq<Script>): map<Tag, nat> {
    if scripts == [] then map[]
    else TagOwner(scripts[..|scripts| - 1])[scripts[|scripts| - 1].tag := |scripts| - 1]
  }

  function LegacyOwner(scripts: seq<Script>): map<int, nat> {
    if scripts == [] then map[]
    else
      var m, last := LegacyOwner(scripts[..|scripts| - 1]), scripts[|scripts| - 1];
      if last.legacyVersion.Some? then m[last.legacyVersion.value := |scripts| - 1] else m
  }

  lemma OwnersNext(scripts: seq<Script>, s: Script)
    ensures TagOwner(scripts + [s]) == TagOwner(scripts)[s.tag := |scripts|]
    ensures LegacyOwner(scripts + [s]) ==
            if s.legacyVersion.Some? then LegacyOwner(scripts)[s.legacyVersion.value := |scripts|] else LegacyOwner(scripts)
  {
    assert (scripts + [s])[..|scripts|] == scripts;
  }

  /** The tags of all upgrader scripts, or of all downgrader scripts. */
  function TagsOf(scripts: seq<Script>, isUpgrader: bool): set<Tag> {
    set s | s in scripts && s.isUpgrader == isUpgrader :: s.tag
  }

  lemma AddTag(scripts: seq<Script>, s: Script, isUpgrader: bool)
    ensures TagsOf(scripts + [s], isUpgrader) ==
            TagsOf(scripts, isUpgrader) + if s.isUpgrader == isUpgrader then {s.tag} else {}
  {
  }

  lemma {:induction false} OwnersOwn(scripts: seq<Script>)
    ensures forall t :: t in TagOwner(scripts) ==> TagOwner(scripts)[t] < |scripts| && scripts[TagOwner(scripts)[t]].tag == t
    ensures forall v :: v in LegacyOwner(scripts) ==>
              LegacyOwner(scripts)[v] < |scripts| && scripts[LegacyOwner(scripts)[v]].legacyVersion == Some(v)
  {
    if scripts != [] { OwnersOwn(scripts[..|scripts| - 1]); }
  }

  lemma AddElement(s: seq<Tag>, t: Tag)
    ensures Elements(s + [t]) == Elements(s) + {t}
  {
  }

  /** The legacy versions 3, 4, ... up to the first gap are chained. */
  ghost predicate Chained(versions: set<int>, v: int) {
    v >= 3 && forall w :: 3 <= w <= v ==> w in versions
  }

  ghost function From(versions: set<int>, i: int): set<int> {
    set v | v in versions && v >= i
  }

  lemma FewerFrom(versions: set<int>, i: int)
    requires i in versions
    ensures From(versions, i + 1) < From(versions, i)
  {
    assert i in From(versions, i);
  }

  /** What script `k` depends on once legacy versions are chained. */
  ghost function OwnDepends(scripts: seq<Script>, k: nat): seq<Tag>
    requires k < |scripts|
  {
    var v := scripts[k].legacyVersion;
    OwnersOwn(scripts);
    if v.Some? && Chained(LegacyOwner(scripts).Keys, v.value) && LegacyOwner(scripts)[v.value] == k
       && v.value - 1 in LegacyOwner(scripts)
    then [scripts[LegacyOwner(scripts)[v.value - 1]].tag]
    else scripts[k].depends
  }

  ghost predicate LegacyBroken(scripts: seq<Script>) {
    3 in LegacyOwner(scripts) && 2 !in LegacyOwner(scripts)
  }

  /** Every name in a dependency of either direction is the tag of some script. */
  ghost predicate AllKnown(scripts: seq<Script>) {
    var owner := TagOwner(scripts);
    OwnersOwn(scripts);
    forall t :: t in owner ==>
      Elements(scripts[owner[t]].fwdDepends) <= owner.Keys && Elements(OwnDepends(scripts, owner[t])) <= owner.Keys
  }

  /** The complete dependencies of a tag: its own and the forward ones of others. */
  ghost function FullDepends(scripts: seq<Script>, t: Tag): set<Tag>
    requires t in TagOwner(scripts)
  {
    OwnersOwn(scripts);
    Elements(OwnDepends(scripts, TagOwner(scripts)[t])) +
    set s | s in TagOwner(scripts) && t in scripts[TagOwner(scripts)[s]].fwdDepends
  }

  ghost function DeclaredRules(scripts: seq<Script>): Rules {
    Rules(TagsOf(scripts, true), TagsOf(scripts, false), map t | t in TagOwner(scripts) :: FullDepends(scripts, t))
  }

  lemma {:induction false} OwnedTags(scripts: seq<Script>)
    ensures TagOwner(scripts).Keys == TagsOf(scripts, true) + TagsOf(scripts, false)
  {
    if scripts == [] {
      assert TagsOf(scripts, true) + TagsOf(scripts, false) == {};
    } else {
      var front, last := scripts[..|scripts| - 1], scripts[|scripts| - 1];
      OwnedTags(front);
      assert scripts == front + [last];
      AddTag(front, last, true);
      AddTag(front, last, false);
    }
  }

  /** Loaded rules are fit for the resolution exactly when no tag has both an upgrader and a downgrader. */
  lemma DeclaredRulesAudited(scripts: seq<Script>)
    requires AllKnown(scripts)
    ensures Audited(DeclaredRules(scripts)) <==> TagsOf(scripts, true) !! TagsOf(scripts, false)
  {
    OwnedTags(scripts);
    OwnersOwn(scripts);
    var r := DeclaredRules(scripts);
    forall t | t in r.deps ensures r.deps[t] <= r.deps.Keys {
      assert Elements(OwnDepends(scripts, TagOwner(scripts)[t])) <= TagOwner(scripts).Keys;
    }
  }

  // ---------- the registry ----------

  class Upgrader {
    const tag: Tag
    var depends: seq<Tag>
    const fwdDepends: seq<Tag>
    const isUpgrader: bool

    constructor (s: Script)
      ensures tag == s.tag && depends == s.depends && fwdDepends == s.fwdDepends && isUpgrader == s.isUpgrader
    {
      tag, depends, fwdDepends, isUpgrader := s.tag, s.depends, s.fwdDepends, s.isUpgrader;
    }

    predicate IsReady(tags: set<Tag>)
      reads this
    {
      forall d :: d in depends ==> d in tags
    }
  }

  ghost predicate Matches(scripts: seq<Script>, objs: seq<Upgrader>) {
    && |objs| == |scripts|
    && (forall i, j :: 0 <= i < j < |objs| ==> objs[i] != objs[j])
    && (forall k :: 0 <= k < |objs| ==> IsFrom(objs[k], scripts[k]))
  }

  ghost predicate IsFrom(u: Upgrader, s: Script) {
    u.tag == s.tag && u.fwdDepends == s.fwdDepends && u.isUpgrader == s.isUpgrader
  }

  /** The tags of `among` that declare a forward dependency of `t` on them. */
  ghost function Dependants(reg: map<Tag, Upgrader>, among: set<Tag>, t: Tag): set<Tag> {
    set s | s in among && s in reg && t in reg[s].fwdDepends
  }

  ghost function DepsOf(reg: map<Tag, Upgrader>): map<Tag, set<Tag>>
    reads reg.Values
  {
    map t | t in reg :: Elements(reg[t].depends)
  }

  /** Dependencies `deps` completed with the forward ones that the tags of `among` declare. */
  ghost function WithForward(reg: map<Tag, Upgrader>, deps: map<Tag, set<Tag>>, among: set<Tag>): map<Tag, set<Tag>> {
    map t | t in deps :: deps[t] + Dependants(reg, among, t)
  }

  lemma WithForwardNone(reg: map<Tag, Upgrader>, deps: map<Tag, set<Tag>>)
    ensures WithForward(reg, deps, {}) == deps
  {
    forall t | t in deps ensures deps[t] + Dependants(reg, {}, t) == deps[t] {
      assert Dependants(reg, {}, t) == {};
    }
  }

  lemma WithForwardStep(reg: map<Tag, Upgrader>, deps: map<Tag, set<Tag>>, among: set<Tag>, tag: Tag)
    ensures WithForward(reg, WithForward(reg, deps, among), {tag}) == WithForward(reg, deps, among + {tag})
  {
    forall t | t in deps
      ensures deps[t] + Dependants(reg, among, t) + Dependants(reg, {tag}, t) == deps[t] + Dependants(reg, among + {tag}, t)
    {
      assert Dependants(reg, among + {tag}, t) == Dependants(reg, among, t) + Dependants(reg, {tag}, t);
    }
  }

  lemma MoveOne(all: set<Tag>, todo: set<Tag>, tag: Tag)
    requires tag in todo && todo <= all
    ensures (all - todo) + {tag} == all - (todo - {tag})
  {
  }

  ghost predicate KnownAround(reg: map<Tag, Upgrader>, deps: map<Tag, set<Tag>>, t: Tag)
    requires t in reg && t in deps
  {
    Elements(reg[t].fwdDepends) <= reg.Keys && deps[t] <= reg.Keys
  }

  lemma KnownBefore(reg: map<Tag, Upgrader>, deps: map<Tag, set<Tag>>, among: set<Tag>, t: Tag)
    requires t in reg && t in deps
    ensures KnownAround(reg, WithForward(reg, deps, among), t) <==> KnownAround(reg, deps, t)
  {
    assert Dependants(reg, among, t) <= reg.Keys;
  }

  /** The effect of the forward dependencies `fwd` declared by `tag`. */
  ghost function Pointed(deps: map<Tag, set<Tag>>, fwd: seq<Tag>, tag: Tag): map<Tag, set<Tag>> {
    map t | t in deps :: deps[t] + if t in fwd then {tag} else {}
  }

  lemma PointedStep(deps: map<Tag, set<Tag>>, fwd: seq<Tag>, j: nat, tag: Tag)
    requires j < |fwd| && fwd[j] in deps
    ensures var before := Pointed(deps, fwd[..j], tag);
            Pointed(deps, fwd[..j + 1], tag) == before[fwd[j] := before[fwd[j]] + {tag}]
  {
    assert fwd[..j + 1] == fwd[..j] + [fwd[j]];
    var before, after := Pointed(deps, fwd[..j], tag), Pointed(deps, fwd[..j + 1], tag);
    forall t | t in deps ensures after[t] == before[fwd[j] := before[fwd[j]] + {tag}][t] {
      assert t in fwd[..j + 1] <==> t in fwd[..j] || t == fwd[j];
    }
  }

  lemma PointedNone(deps: map<Tag, set<Tag>>, tag: Tag)
    ensures Pointed(deps, [], tag) == deps
  {
    forall t | t in deps ensures Pointed(deps, [], tag)[t] == deps[t] {
    }
  }

  lemma PointedIsForward(reg: map<Tag, Upgrader>, deps: map<Tag, set<Tag>>, tag: Tag)
    requires tag in reg
    ensures Pointed(deps, reg[tag].fwdDepends, tag) == WithForward(reg, deps, {tag})
  {
    forall t | t in deps ensures Dependants(reg, {tag}, t) == if t in reg[tag].fwdDepends then {tag} else {} {
    }
  }

  ghost predicate OwnedBy(reg: map<Tag, Upgrader>, scripts: seq<Script>, objs: seq<Upgrader>) {
    && Matches(scripts, objs)
    && reg.Keys == TagOwner(scripts).Keys
    && forall t :: t in reg ==> TagOwner(scripts)[t] < |objs| && reg[t] == objs[TagOwner(scripts)[t]]
  }

  ghost predicate LegacyOwnedBy(versions: map<int, Upgrader>, scripts: seq<Script>, objs: seq<Upgrader>) {
    && versions.Keys == LegacyOwner(scripts).Keys
    && forall v :: v in versions ==> LegacyOwner(scripts)[v] < |objs| && versions[v] == objs[LegacyOwner(scripts)[v]]
  }

  lemma OwnedNext(reg: map<Tag, Upgrader>, scripts: seq<Script>, objs: seq<Upgrader>, s: Script, u: Upgrader)
    requires OwnedBy(reg, scripts, objs) && u !in objs && IsFrom(u, s)
    ensures OwnedBy(reg[s.tag := u], scripts + [s], objs + [u])
  {
    OwnersNext(scripts, s);
  }

  lemma LegacyOwnedNext(versions: map<int, Upgrader>, scripts: seq<Script>, objs: seq<Upgrader>, s: Script, u: Upgrader)
    requires LegacyOwnedBy(versions, scripts, objs) && |objs| == |scripts|
    ensures LegacyOwnedBy(if s.legacyVersion.Some? then versions[s.legacyVersion.value := u] else versions, scripts + [s], objs + [u])
  {
    OwnersNext(scripts, s);
  }

  /** The objects' own dependencies are those the scripts declare. */
  ghost predicate OwnDeps(scripts: seq<Script>, deps: map<Tag, set<Tag>>) {
    OwnersOwn(scripts);
    && deps.Keys == TagOwner(scripts).Keys
    && forall t :: t in deps ==> deps[t] == Elements(OwnDepends(scripts, TagOwner(scripts)[t]))
  }

  lemma ForwardAsDeclared(reg: map<Tag, Upgrader>, scripts: seq<Script>, objs: seq<Upgrader>)
    requires OwnedBy(reg, scripts, objs)
    ensures forall t :: t in reg ==> TagOwner(scripts)[t] < |scripts| && reg[t].tag == t
    ensures forall t :: t in reg ==> reg[t].fwdDepends == scripts[TagOwner(scripts)[t]].fwdDepends
  {
    OwnersOwn(scripts);
    forall t | t in reg ensures reg[t].tag == t && reg[t].fwdDepends == scripts[TagOwner(scripts)[t]].fwdDepends {
      assert IsFrom(objs[TagOwner(scripts)[t]], scripts[TagOwner(scripts)[t]]);
    }
  }

  lemma KnownAsDeclared(reg: map<Tag, Upgrader>, scripts: seq<Script>, objs: seq<Upgrader>, deps: map<Tag, set<Tag>>)
    requires OwnedBy(reg, scripts, objs) && OwnDeps(scripts, deps)
    ensures AllKnown(scripts) <==> forall t :: t in reg ==> KnownAround(reg, deps, t)
  {
    ForwardAsDeclared(reg, scripts, objs);
  }

  lemma DepsAsDeclared(reg: map<Tag, Upgrader>, scripts: seq<Script>, objs: seq<Upgrader>, deps: map<Tag, set<Tag>>)
    requires OwnedBy(reg, scripts, objs) && OwnDeps(scripts, deps)
    ensures WithForward(reg, deps, reg.Keys) == DeclaredRules(scripts).deps
  {
    forall t | t in deps ensures deps[t] + Dependants(reg, reg.Keys, t) == FullDepends(scripts, t) {
      ForwardAsDeclared(reg, scripts, objs);
      DependantsAsDeclared(reg, scripts, t);
    }
  }

  lemma DependantsAsDeclared(reg: map<Tag, Upgrader>, scripts: seq<Script>, t: Tag)
    requires reg.Keys == TagOwner(scripts).Keys
    requires forall s :: s in reg ==> TagOwner(scripts)[s] < |scripts|
    requires forall s :: s in reg ==> reg[s].fwdDepends == scripts[TagOwner(scripts)[s]].fwdDepends
    ensures Dependants(reg, reg.Keys, t) ==
            set s | s in TagOwner(scripts) && t in scripts[TagOwner(scripts)[s]].fwdDepends
  {
  }

  /** Where no tag has both kinds of migration, the kind of a tag's owner is that of the tag. */
  lemma KindsAsDeclared(reg: map<Tag, Upgrader>, scripts: seq<Script>, objs: seq<Upgrader>)
    requires OwnedBy(reg, scripts, objs) && TagsOf(scripts, true) !! TagsOf(scripts, false)
    ensures forall t :: t in reg ==> (reg[t].isUpgrader <==> t in TagsOf(scripts, true))
  {
    OwnersOwn(scripts);
    forall t | t in reg ensures reg[t].isUpgrader <==> t in TagsOf(scripts, true) {
      var s := scripts[TagOwner(scripts)[t]];
      assert IsFrom(reg[t], s) && s.tag in TagsOf(scripts, s.isUpgrader);
    }
  }

  datatype LoadResult = Loaded | MissingLegacy | UnknownForward(fd: Tag, tag: Tag) | UnknownDepends(tag: Tag, dep: Tag)

  /** The version information found in a checkpoint. */
  datatype Version = LegacyNumber(number: int) | TagList(tags: set<Tag>) | Unversioned

  datatype FileResult = NoVersion | UnknownVersion | Aborted(remaining: set<Tag>) | Unchanged | Written(tags: set<Tag>)

  class Registry {
    var tagSet: set<Tag>
    var untagSet: set<Tag>
    var byTag: map<Tag, Upgrader>
    var legacy: map<int, Upgrader>

    constructor ()
      ensures tagSet == {} && untagSet == {} && byTag == map[] && legacy == map[]
    {
      tagSet, untagSet, byTag, legacy := {}, {}, map[], map[];
    }

    /** The registered objects, in the order their scripts were loaded. */
    ghost predicate Holds(scripts: seq<Script>, objs: seq<Upgrader>)
      reads this
    {
      && OwnedBy(byTag, scripts, objs)
      && LegacyOwnedBy(legacy, scripts, objs)
      && tagSet == TagsOf(scripts, true) && untagSet == TagsOf(scripts, false)
    }

    method Register(s: Script) returns (u: Upgrader)
      modifies this
      ensures fresh(u) && IsFrom(u, s) && u.depends == s.depends
      ensures tagSet == old(tagSet) + (if s.isUpgrader then {s.tag} else {})
      ensures untagSet == old(untagSet) + (if s.isUpgrader then {} else {s.tag})
      ensures byTag == old(byTag)[s.tag := u]
      ensures legacy == if s.legacyVersion.Some? then old(legacy)[s.legacyVersion.value := u] else old(legacy)
    {
      u := new Upgrader(s);
      if u.isUpgrader {
        tagSet := tagSet + {u.tag};
      } else {
        untagSet := untagSet + {u.tag};
      }
      if s.legacyVersion.Some? {
        legacy := legacy[s.legacyVersion.value := u];
      }
      byTag := byTag[u.tag := u];
    }

    /** Registers every script. */
    method LoadScripts(scripts: seq<Script>) returns (ghost objs: seq<Upgrader>)
      requires Holds([], [])
      modifies this
      ensures fresh(objs) && Holds(scripts, objs)
      ensures forall k :: 0 <= k < |objs| ==> objs[k].depends == scripts[k].depends
    {
      objs := [];
      var k := 0;
      while k < |scripts|
        invariant 0 <= k <= |scripts| && fresh(objs) && Holds(scripts[..k], objs)
        invariant forall j :: 0 <= j < k ==> objs[j].depends == scripts[j].depends
      {
        ghost var tagged, versions := byTag, legacy;
        var u := Register(scripts[k]);
        assert scripts[..k + 1] == scripts[..k] + [scripts[k]];
        assert Holds(scripts[..k] + [scripts[k]], objs + [u]) by {
          OwnedNext(tagged, scripts[..k], objs, scripts[k], u);
          LegacyOwnedNext(versions, scripts[..k], objs, scripts[k], u);
          AddTag(scripts[..k], scripts[k], true);
          AddTag(scripts[..k], scripts[k], false);
        }
        objs := objs + [u];
        k := k + 1;
      }
      assert scripts[..k] == scripts;
    }

    /** Makes the legacy versions depend on each other in a line. */
    method ChainLegacy(ghost objs: seq<Upgrader>) returns (ok: bool)
      requires forall v, w :: v in legacy && w in legacy && v != w ==> legacy[v] != legacy[w]
      requires forall v :: v in legacy ==> legacy[v] in objs
      modifies objs
      ensures ok <==> !(3 in legacy && 2 !in legacy)
      ensures ok ==> forall v :: v in legacy && Chained(legacy.Keys, v) ==> legacy[v].depends == [legacy[v - 1].tag]
      ensures forall v :: v in legacy && !Chained(legacy.Keys, v) ==> legacy[v].depends == old(legacy[v].depends)
      ensures forall u :: u in objs && (forall v :: v in legacy ==> legacy[v] != u) ==> u.depends == old(u.depends)
    {
      var chain := legacy;
      ghost var keys := chain.Keys;
      var i := 3;
      while i in chain
        invariant i >= 3 && forall w :: 3 <= w < i ==> w in keys
        invariant i > 3 ==> 2 in chain
        invariant forall v :: v in chain && 3 <= v < i ==> chain[v].depends == [chain[v - 1].tag]
        invariant forall v :: v in chain && !(3 <= v < i) ==> chain[v].depends == old(chain[v].depends)
        invariant forall u :: u in objs && (forall v :: v in chain ==> chain[v] != u) ==> u.depends == old(u.depends)
        decreases From(chain.Keys, i)
      {
        if i - 1 !in chain {
          return false;
        }
        chain[i].depends := [chain[i - 1].tag];
        FewerFrom(chain.Keys, i);
        i := i + 1;
      }
      assert i !in keys;
      assert forall v :: Chained(keys, v) <==> 3 <= v < i;
      return true;
    }

    /** Turns forward dependencies around and audits all dependencies, visiting the tags in any order. */
    method ResolveForward() returns (r: LoadResult)
      requires forall t :: t in byTag ==> byTag[t].tag == t
      modifies byTag.Values
      ensures !r.MissingLegacy?
      ensures r.Loaded? <==> forall t :: t in byTag ==> KnownAround(byTag, old(DepsOf(byTag)), t)
      ensures r.UnknownForward? ==> r.tag in byTag && r.fd in byTag[r.tag].fwdDepends && r.fd !in byTag
      ensures r.UnknownDepends? ==> r.tag in byTag && r.dep !in byTag
      ensures r.Loaded? ==> DepsOf(byTag) == WithForward(byTag, old(DepsOf(byTag)), byTag.Keys)
    {
      var reg := byTag;
      ghost var deps := DepsOf(reg);
      var todo := reg.Keys;
      assert reg.Keys - todo == {};
      WithForwardNone(reg, deps);
      while todo != {}
        invariant todo <= reg.Keys
        invariant DepsOf(reg) == WithForward(reg, deps, reg.Keys - todo)
        invariant forall s :: s in reg.Keys - todo ==> KnownAround(reg, deps, s)
        decreases todo
      {
        ghost var done := reg.Keys - todo;
        var tag :| tag in todo;
        r := ForwardOne(tag);
        assert r.Loaded? <==> KnownAround(reg, deps, tag) by { KnownBefore(reg, deps, done, tag); }
        if !r.Loaded? {
          return;
        }
        assert DepsOf(reg) == WithForward(reg, deps, done + {tag}) by { WithForwardStep(reg, deps, done, tag); }
        MoveOne(reg.Keys, todo, tag);
        todo := todo - {tag};
      }
      assert reg.Keys - todo == reg.Keys;
      return Loaded;
    }

    method ForwardOne(tag: Tag) returns (r: LoadResult)
      requires tag in byTag && forall t :: t in byTag ==> byTag[t].tag == t
      modifies byTag.Values
      ensures !r.MissingLegacy?
      ensures r.Loaded? <==> KnownAround(byTag, old(DepsOf(byTag)), tag)
      ensures r.UnknownForward? ==> r.tag == tag && r.fd in byTag[tag].fwdDepends && r.fd !in byTag
      ensures r.UnknownDepends? ==> r.tag == tag && r.dep !in byTag
      ensures r.Loaded? ==> DepsOf(byTag) == WithForward(byTag, old(DepsOf(byTag)), {tag})
    {
      var upg := byTag[tag];
      ghost var deps := DepsOf(byTag);
      var fd := PointForward(upg);
      if fd.Some? {
        return UnknownForward(fd.value, tag);
      }
      PointedIsForward(byTag, deps, tag);
      KnownBefore(byTag, deps, {tag}, tag);
      var dep := FirstUnknown(upg.depends);
      if dep.Some? {
        return UnknownDepends(tag, dep.value);
      }
      return Loaded;
    }

    method PointForward(upg: Upgrader) returns (unknown: Option<Tag>)
      requires forall t :: t in byTag ==> byTag[t].tag == t
      modifies byTag.Values
      ensures unknown.None? <==> Elements(upg.fwdDepends) <= byTag.Keys
      ensures unknown.Some? ==> unknown.value in upg.fwdDepends && unknown.value !in byTag
      ensures unknown.None? ==> DepsOf(byTag) == Pointed(old(DepsOf(byTag)), upg.fwdDepends, upg.tag)
    {
      var reg := byTag;
      ghost var deps := DepsOf(reg);
      var j := 0;
      assert upg.fwdDepends[..0] == [];
      PointedNone(deps, upg.tag);
      while j < |upg.fwdDepends|
        invariant 0 <= j <= |upg.fwdDepends|
        invariant DepsOf(reg) == Pointed(deps, upg.fwdDepends[..j], upg.tag)
        invariant forall i :: 0 <= i < j ==> upg.fwdDepends[i] in reg
      {
        var fd := upg.fwdDepends[j];
        if fd !in reg {
          assert fd in Elements(upg.fwdDepends);
          return Some(fd);
        }
        AddElement(reg[fd].depends, upg.tag);
        ghost var before := DepsOf(reg);
        reg[fd].depends := reg[fd].depends + [upg.tag];
        assert DepsOf(reg) == before[fd := before[fd] + {upg.tag}];
        PointedStep(deps, upg.fwdDepends, j, upg.tag);
        j := j + 1;
      }
      assert upg.fwdDepends[..j] == upg.fwdDepends;
      return None;
    }

    method FirstUnknown(deps: seq<Tag>) returns (unknown: Option<Tag>)
      ensures unknown.None? <==> Elements(deps) <= byTag.Keys
      ensures unknown.Some? ==> unknown.value in deps && unknown.value !in byTag
    {
      for j := 0 to |deps|
        invariant forall i :: 0 <= i < j ==> deps[i] in byTag
      {
        if deps[j] !in byTag {
          assert deps[j] in Elements(deps);
          return Some(deps[j]);
        }
      }
      return None;
    }

    ghost function CurrentRules(): Rules
      reads this, byTag.Values
    {
      Rules(tagSet, untagSet, DepsOf(byTag))
    }

    /** Loads all scripts. It fails exactly when a name is unknown or legacy version 2 is
        missing, and otherwise the registry holds exactly the declared rules. */
    method LoadAll(scripts: seq<Script>) returns (r: LoadResult, ghost objs: seq<Upgrader>)
      requires Holds([], [])
      modifies this
      ensures fresh(objs) && Holds(scripts, objs)
      ensures r.MissingLegacy? <==> LegacyBroken(scripts)
      ensures r.Loaded? <==> !LegacyBroken(scripts) && AllKnown(scripts)
      ensures r.UnknownForward? ==> r.tag in byTag && r.fd in byTag[r.tag].fwdDepends && r.fd !in byTag
      ensures r.UnknownDepends? ==> r.tag in byTag && r.dep !in byTag
      ensures r.Loaded? ==> CurrentRules() == DeclaredRules(scripts)
      ensures r.Loaded? && TagsOf(scripts, true) !! TagsOf(scripts, false) ==> Usable()
    {
      objs := LoadScripts(scripts);
      var ok := ChainScripts(scripts, objs);
      if !ok {
        return MissingLegacy, objs;
      }
      forall u | u in byTag.Values ensures u in objs {
        var t :| t in byTag && byTag[t] == u;
      }
      ForwardAsDeclared(byTag, scripts, objs);
      ghost var deps := DepsOf(byTag);
      KnownAsDeclared(byTag, scripts, objs, deps);
      DepsAsDeclared(byTag, scripts, objs, deps);
      r := ResolveForward();
      if r.Loaded? && TagsOf(scripts, true) !! TagsOf(scripts, false) {
        DeclaredRulesAudited(scripts);
        KindsAsDeclared(byTag, scripts, objs);
      }
    }

    method ChainScripts(ghost scripts: seq<Script>, ghost objs: seq<Upgrader>) returns (ok: bool)
      requires Holds(scripts, objs)
      requires forall k :: 0 <= k < |objs| ==> objs[k].depends == scripts[k].depends
      modifies objs
      ensures ok <==> !LegacyBroken(scripts)
      ensures ok ==> forall k :: 0 <= k < |objs| ==> objs[k].depends == OwnDepends(scripts, k)
    {
      OwnersOwn(scripts);
      ok := ChainLegacy(objs);
      if ok {
        forall k | 0 <= k < |objs| ensures objs[k].depends == OwnDepends(scripts, k) {
          var v := scripts[k].legacyVersion;
          if v.Some? && v.value in legacy && LegacyOwner(scripts)[v.value] == k {
            assert legacy[v.value] == objs[k] && legacy.Keys == LegacyOwner(scripts).Keys;
            if Chained(legacy.Keys, v.value) {
              assert v.value > 3 ==> v.value - 1 in legacy.Keys;
              var before := LegacyOwner(scripts)[v.value - 1];
              assert legacy[v.value - 1] == objs[before] && IsFrom(objs[before], scripts[before]);
            } else {
              assert legacy[v.value].depends == old(legacy[v.value].depends);
              assert old(objs[k].depends) == scripts[k].depends;
            }
          } else {
            assert objs[k] in objs && forall w :: w in legacy ==> legacy[w] != objs[k];
            assert v.Some? && Chained(legacy.Keys, v.value) ==> v.value in legacy.Keys;
          }
        }
      }
    }

    /** Tags that can be migrated: each has one migration, of one kind, and only known dependencies. */
    ghost predicate Usable()
      reads this, byTag.Values
    {
      && Audited(CurrentRules())
      && forall t :: t in byTag ==> (byTag[t].isUpgrader <==> t in tagSet)
    }

    /** Runs the ready migrations in any order. */
    method ApplyRound(ghost r: Rules, ready: set<Tag>, tags: set<Tag>) returns (tags': set<Tag>, applied: seq<Tag>)
      requires Usable() && r == CurrentRules() && ready <= byTag.Keys && ready * untagSet <= tags
      ensures tags' == AfterRound(r, ready, tags)
      ensures |applied| == |ready| && Elements(applied) == ready
    {
      tags', applied := tags, [];
      var todo := ready;
      ghost var done: set<Tag> := {};
      while todo != {}
        invariant done !! todo && done + todo == ready && |applied| == |done| && Elements(applied) == done
        invariant tags' == AfterRound(r, done, tags)
        decreases |todo|
      {
        var tag :| tag in todo;
        if byTag[tag].isUpgrader {
          tags' := tags' + {tag};
        } else {
          assert tag in tags';
          tags' := tags' - {tag};
        }
        assert tags' == AfterRound(r, done + {tag}, tags) by { AfterOne(r, done, tag, tags); }
        assert Elements(applied + [tag]) == done + {tag} by { AddElement(applied, tag); }
        applied := applied + [tag];
        todo, done := todo - {tag}, done + {tag};
      }
    }

    method FindReady(ghost r: Rules, toApply: set<Tag>, tags: set<Tag>) returns (ready: set<Tag>)
      requires r == CurrentRules() && toApply <= byTag.Keys
      ensures ready == Ready(r, toApply, tags)
    {
      ready := set t | t in toApply && byTag[t].IsReady(tags);
    }

    /** Applies migrations round by round until none is left or none is ready. */
    method ResolveTags(ghost r: Rules, initial: set<Tag>) returns (outcome: Outcome, applied: seq<Tag>)
      requires Usable() && r == CurrentRules()
      ensures outcome == Resolve(r, ToApply(r, initial), initial)
      ensures IsRun(r, ToApply(r, initial), initial, applied)
    {
      var tags := initial;
      var toApply := (tagSet - tags) + (untagSet * tags);
      ghost var all := ToApply(r, initial);
      applied := [];
      PendingInitially(r, initial);
      LeadsToStart(r, all, initial);
      while toApply != {}
        invariant Pending(r, toApply, tags) && LeadsTo(r, all, initial, applied, toApply, tags)
        decreases |toApply|
      {
        var ready := FindReady(r, toApply, tags);
        if ready == {} {
          LeadsToEnd(r, all, initial, applied, toApply, tags);
          return Stuck(toApply, tags), applied;
        }
        var tags', round := ApplyRound(r, ready, tags);
        LeadsToStep(r, all, initial, applied, toApply, tags, round);
        applied := applied + round;
        toApply, tags := toApply - ready, tags';
      }
      LeadsToEnd(r, all, initial, applied, toApply, tags);
      return Done(tags), applied;
    }

    /** Tags that stand for a legacy version number. */
    ghost function VersionTags(number: int): set<Tag>
      reads this
    {
      set i | i in legacy && 2 <= i <= number :: legacy[i].tag
    }

    method LegacyTags(number: int) returns (tags: Option<set<Tag>>)
      ensures tags.None? <==> exists i :: 2 <= i <= number && i !in legacy
      ensures tags.Some? ==> tags.value == VersionTags(number)
    {
      var found: set<Tag> := {};
      var i := 2;
      assert VersionTags(1) == {} && (number < 2 ==> VersionTags(number) == {});
      while i <= number
        invariant 2 <= i && (if 2 <= number then i <= number + 1 else i == 2) && forall j :: 2 <= j < i ==> j in legacy
        invariant found == VersionTags(i - 1)
      {
        if i !in legacy {
          return None;
        }
        assert VersionTags(i) == VersionTags(i - 1) + {legacy[i].tag};
        found := found + {legacy[i].tag};
        i := i + 1;
      }
      return Some(found);
    }

    /** Migrates one checkpoint. A written checkpoint has every upgrader's tag and no
        downgrader's tag, and processing it again changes nothing. */
    method ProcessFile(ghost r: Rules, v: Version) returns (res: FileResult, applied: seq<Tag>)
      requires Usable() && r == CurrentRules()
      ensures res.NoVersion? <==> v.Unversioned?
      ensures res.UnknownVersion? <==> v.LegacyNumber? && exists i :: 2 <= i <= v.number && i !in legacy
      ensures res.Unchanged? <==> v.TagList? && ToApply(r, v.tags) == {}
      ensures res.Written? ==> ToApply(r, res.tags) == {}
      ensures res.Aborted? || res.Written? || res.Unchanged? ==>
                var initial := if v.TagList? then v.tags else VersionTags(v.number);
                && IsRun(r, ToApply(r, initial), initial, applied)
                && (res.Aborted? <==> Resolve(r, ToApply(r, initial), initial).Stuck?)
                && (res.Aborted? ==> res.remaining == Resolve(r, ToApply(r, initial), initial).remaining)
                && (res.Written? ==> res.tags == (initial + tagSet) - untagSet)
    {
      applied := [];
      var change, tags := false, {};
      match v {
        case LegacyNumber(n) =>
          var known := LegacyTags(n);
          if known.None? {
            return UnknownVersion, [];
          }
          tags, change := known.value, true;
        case TagList(ts) =>
          tags := ts;
        case Unversioned =>
          return NoVersion, [];
      }
      var outcome;
      outcome, applied := ResolveTags(r, tags);
      FinalTags(r, tags);
      PendingInitially(r, tags);
      AppliedTags(r, ToApply(r, tags), tags, applied);
      if outcome.Stuck? {
        return Aborted(outcome.remaining), applied;
      }
      if applied != [] {
        assert applied[0] in Elements(applied);
        change := true;
      }
      if !change {
        return Unchanged, applied;
      }
      return Written(outcome.tags), applied;
    }
  }
}
