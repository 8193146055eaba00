/** The checkpoint upgrader as a whole: from the migration scripts to the tags of the written checkpoint. */
module CheckpointUpgrade {
  import opened Common
  import opened UpgradeRules
  import opened Upgraders

  /** The tags that stand for a legacy version number. */
  ghost function DeclaredVersionTags(scripts: seq<Script>, number: int): set<Tag> {
    OwnersOwn(scripts);
    set i | i in LegacyOwner(scripts) && 2 <= i <= number :: scripts[LegacyOwner(scripts)[i]].tag
  }

  ghost function InitialTags(scripts: seq<Script>, v: Version): set<Tag> {
    match v
    case TagList(tags) => tags
    case LegacyNumber(n) => DeclaredVersionTags(scripts, n)
    case Unversioned => {}
  }

  lemma VersionTagsAsDeclared(reg: Registry, scripts: seq<Script>, objs: seq<Upgrader>, number: int)
    requires reg.Holds(scripts, objs)
    ensures reg.VersionTags(number) == DeclaredVersionTags(scripts, number)
  {
    OwnersOwn(scripts);
    forall i | i in reg.legacy ensures reg.legacy[i].tag == scripts[LegacyOwner(scripts)[i]].tag {
      assert IsFrom(objs[LegacyOwner(scripts)[i]], scripts[LegacyOwner(scripts)[i]]);
    }
  }

  /** Script `k` is the last one with that tag, or with that legacy version. */
  ghost predicate OwnsTag(scripts: seq<Script>, k: int, t: Tag) {
    0 <= k < |scripts| && scripts[k].tag == t && forall j :: k < j < |scripts| ==> scripts[j].tag != t
  }

  ghost predicate OwnsVersion(scripts: seq<Script>, k: int, v: int) {
    && 0 <= k < |scripts| && scripts[k].legacyVersion == Some(v)
    && forall j :: k < j < |scripts| ==> scripts[j].legacyVersion != Some(v)
  }

  /** The owner of a tag or version is the last script that claims it. */
  lemma {:induction false} OwnersAreLast(scripts: seq<Script>)
    ensures forall t, k :: OwnsTag(scripts, k, t) <==> t in TagOwner(scripts) && TagOwner(scripts)[t] == k
    ensures forall v, k :: OwnsVersion(scripts, k, v) <==> v in LegacyOwner(scripts) && LegacyOwner(scripts)[v] == k
  {
    if scripts != [] {
      var n := |scripts| - 1;
      var front := scripts[..n];
      OwnersAreLast(front);
      OwnersOwn(front);
      forall t, k ensures OwnsTag(scripts, k, t) <==> if scripts[n].tag == t then k == n else OwnsTag(front, k, t) {
        TagOwnerStep(scripts, k, t);
      }
      forall v, k
        ensures OwnsVersion(scripts, k, v) <==> if scripts[n].legacyVersion == Some(v) then k == n else OwnsVersion(front, k, v)
      {
        VersionOwnerStep(scripts, k, v);
      }
    }
  }

  lemma TagOwnerStep(scripts: seq<Script>, k: int, t: Tag)
    requires scripts != []
    ensures var n := |scripts| - 1;
            OwnsTag(scripts, k, t) <==> if scripts[n].tag == t then k == n else OwnsTag(scripts[..n], k, t)
  {
  }

  lemma VersionOwnerStep(scripts: seq<Script>, k: int, v: int)
    requires scripts != []
    ensures var n := |scripts| - 1;
            OwnsVersion(scripts, k, v) <==>
            if scripts[n].legacyVersion == Some(v) then k == n else OwnsVersion(scripts[..n], k, v)
  {
  }

  ghost predicate HasVersion(scripts: seq<Script>, v: int) { exists s :: s in scripts && s.legacyVersion == Some(v) }

  /** Script `k` gets its dependencies from the chain of legacy versions: it owns a version from 3 on, and all
      versions from 3 up to it are there. */
  ghost predicate IsChained(scripts: seq<Script>, k: int)
    requires 0 <= k < |scripts|
  {
    var v := scripts[k].legacyVersion;
    v.Some? && v.value >= 3 && OwnsVersion(scripts, k, v.value) && forall w :: 3 <= w <= v.value ==> HasVersion(scripts, w)
  }

  /** Its own dependencies: the tag of the previous version if it is chained, else what it says. */
  ghost predicate OwnDependency(scripts: seq<Script>, k: int, d: Tag)
    requires 0 <= k < |scripts|
  {
    if IsChained(scripts, k) then exists j :: OwnsVersion(scripts, j, scripts[k].legacyVersion.value - 1) && scripts[j].tag == d
    else d in scripts[k].depends
  }

  /** What a tag depends on, from the scripts: what its script does, and every tag whose script declares a forward
      dependency of it. */
  ghost predicate DependsOn(scripts: seq<Script>, t: Tag, d: Tag) {
    || (exists k :: OwnsTag(scripts, k, t) && OwnDependency(scripts, k, d))
    || (exists k :: OwnsTag(scripts, k, d) && t in scripts[k].fwdDepends)
  }

  lemma {:induction false} HasVersionIs(scripts: seq<Script>, v: int)
    ensures HasVersion(scripts, v) <==> v in LegacyOwner(scripts)
  {
    if scripts != [] {
      var front, last := scripts[..|scripts| - 1], scripts[|scripts| - 1];
      HasVersionIs(front, v);
      assert last in scripts && forall s :: s in scripts <==> s in front || s == last;
    }
  }

  lemma ChainedIs(scripts: seq<Script>, k: int)
    requires 0 <= k < |scripts|
    ensures var v := scripts[k].legacyVersion;
            IsChained(scripts, k) <==>
            v.Some? && Chained(LegacyOwner(scripts).Keys, v.value) && LegacyOwner(scripts)[v.value] == k
  {
    OwnersAreLast(scripts);
    var v := scripts[k].legacyVersion;
    forall w ensures HasVersion(scripts, w) <==> w in LegacyOwner(scripts).Keys { HasVersionIs(scripts, w); }
    if v.Some? { assert OwnsVersion(scripts, k, v.value) <==> v.value in LegacyOwner(scripts) && LegacyOwner(scripts)[v.value] == k; }
  }

  lemma OwnDependencyIs(scripts: seq<Script>, k: int, d: Tag)
    requires 0 <= k < |scripts| && !LegacyBroken(scripts)
    ensures OwnDependency(scripts, k, d) <==> d in OwnDepends(scripts, k)
  {
    ChainedIs(scripts, k);
    OwnersAreLast(scripts);
    OwnersOwn(scripts);
    if IsChained(scripts, k) {
      var v := scripts[k].legacyVersion.value;
      assert v - 1 in LegacyOwner(scripts) by { assert v > 3 ==> v - 1 in LegacyOwner(scripts).Keys; }
      assert OwnsVersion(scripts, LegacyOwner(scripts)[v - 1], v - 1);
    }
  }

  /** The rules the loader builds are these dependencies. */
  lemma DependencyIs(scripts: seq<Script>, t: Tag, d: Tag)
    requires !LegacyBroken(scripts) && t in TagOwner(scripts)
    ensures t in DeclaredRules(scripts).deps && (d in DeclaredRules(scripts).deps[t] <==> DependsOn(scripts, t, d))
  {
    OwnersAreLast(scripts);
    OwnersOwn(scripts);
    var k := TagOwner(scripts)[t];
    OwnDependencyIs(scripts, k, d);
    assert OwnsTag(scripts, k, t);
    assert (exists j :: OwnsTag(scripts, j, d) && t in scripts[j].fwdDepends) <==>
           d in TagOwner(scripts) && t in scripts[TagOwner(scripts)[d]].fwdDepends;
  }

  /** The initial tags of a legacy checkpoint: those of the scripts that own the versions from 2 up to its number. */
  lemma InitialTagsAre(scripts: seq<Script>, n: int, t: Tag)
    ensures t in InitialTags(scripts, LegacyNumber(n)) <==>
            exists i, k :: 2 <= i <= n && OwnsVersion(scripts, k, i) && scripts[k].tag == t
  {
    OwnersAreLast(scripts);
    OwnersOwn(scripts);
    if t in InitialTags(scripts, LegacyNumber(n)) {
      var i :| i in LegacyOwner(scripts) && 2 <= i <= n && scripts[LegacyOwner(scripts)[i]].tag == t;
      assert OwnsVersion(scripts, LegacyOwner(scripts)[i], i);
    }
  }

  /** What migrating a checkpoint comes to, in terms of the scripts alone. */
  ghost predicate Migrated(scripts: seq<Script>, v: Version, res: FileResult, applied: seq<Tag>) {
    OwnedTags(scripts);
    var r, initial := DeclaredRules(scripts), InitialTags(scripts, v);
    var pending := ToApply(r, initial);
    && (res.NoVersion? <==> v.Unversioned?)
    && (res.UnknownVersion? <==> v.LegacyNumber? && exists i :: 2 <= i <= v.number && i !in LegacyOwner(scripts))
    && (res.Unchanged? <==> v.TagList? && pending == {})
    && (!res.NoVersion? && !res.UnknownVersion? ==>
          && IsRun(r, pending, initial, applied)
          && (res.Aborted? <==> Resolve(r, pending, initial).Stuck?)
          && (res.Aborted? ==> res.remaining == Resolve(r, pending, initial).remaining))
    && (res.Written? ==>
          res.tags == (initial + TagsOf(scripts, true)) - TagsOf(scripts, false) && ToApply(r, res.tags) == {})
  }

  ghost predicate HasScript(scripts: seq<Script>, t: Tag, isUpgrader: bool) {
    exists s :: s in scripts && s.tag == t && s.isUpgrader == isUpgrader
  }

  /** A tag the checkpoint has is due if there is a downgrader, another one if there is an upgrader. */
  ghost predicate IsDue(scripts: seq<Script>, initial: set<Tag>, t: Tag) {
    if t in initial then HasScript(scripts, t, false) else HasScript(scripts, t, true)
  }

  lemma TagsOfIs(scripts: seq<Script>, t: Tag, isUpgrader: bool)
    ensures t in TagsOf(scripts, isUpgrader) <==> HasScript(scripts, t, isUpgrader)
  {
  }

  /** What was applied: the upgrades of tags the checkpoint lacked and the downgrades of tags it had, each once ... */
  lemma AppliedAre(scripts: seq<Script>, v: Version, res: FileResult, applied: seq<Tag>, t: Tag)
    requires AllKnown(scripts) && TagsOf(scripts, true) !! TagsOf(scripts, false)
    requires Migrated(scripts, v, res, applied) && (res.Written? || res.Unchanged?)
    ensures t in applied <==> IsDue(scripts, InitialTags(scripts, v), t)
  {
    var r, initial := DeclaredRules(scripts), InitialTags(scripts, v);
    DeclaredRulesAudited(scripts);
    PendingInitially(r, initial);
    AppliedTags(r, ToApply(r, initial), initial, applied);
    TagsOfIs(scripts, t, true);
    TagsOfIs(scripts, t, false);
    assert t in applied <==> t in Elements(applied);
  }

  /** ... and each after all that it depends on. */
  lemma AppliedAfter(scripts: seq<Script>, v: Version, res: FileResult, applied: seq<Tag>, k: nat, d: Tag)
    requires AllKnown(scripts) && !LegacyBroken(scripts) && TagsOf(scripts, true) !! TagsOf(scripts, false)
    requires Migrated(scripts, v, res, applied) && !res.NoVersion? && !res.UnknownVersion?
    requires k < |applied| && DependsOn(scripts, applied[k], d)
    ensures d in InitialTags(scripts, v) || d in applied[..k]
    ensures forall j :: 0 <= j < k ==> applied[j] != applied[k]
  {
    var r, initial := DeclaredRules(scripts), InitialTags(scripts, v);
    DeclaredRulesAudited(scripts);
    PendingInitially(r, initial);
    OwnedTags(scripts);
    AppliedInOrder(r, ToApply(r, initial), initial, applied, k);
    AppliedOnce(r, ToApply(r, initial), initial, applied);
    DependencyIs(scripts, applied[k], d);
  }

  /** Loads the scripts and migrates one checkpoint. */
  method UpgradeCheckpoint(scripts: seq<Script>, v: Version)
    returns (load: LoadResult, res: Option<FileResult>, applied: seq<Tag>)
    requires TagsOf(scripts, true) !! TagsOf(scripts, false)
    ensures load.MissingLegacy? <==> LegacyBroken(scripts)
    ensures load.Loaded? <==> !LegacyBroken(scripts) && AllKnown(scripts)
    ensures res.Some? <==> load.Loaded?
    ensures load.Loaded? ==> Migrated(scripts, v, res.value, applied)
    ensures load.Loaded? && (res.value.Written? || res.value.Unchanged?) ==>
              forall t :: t in applied <==> IsDue(scripts, InitialTags(scripts, v), t)
    ensures load.Loaded? && res.value.Written? ==>
              forall t :: t in res.value.tags <==>
                          (t in InitialTags(scripts, v) || HasScript(scripts, t, true)) && !HasScript(scripts, t, false)
    ensures load.Loaded? && !res.value.NoVersion? && !res.value.UnknownVersion? ==>
              forall k, d :: 0 <= k < |applied| && DependsOn(scripts, applied[k], d) ==>
                             d in InitialTags(scripts, v) || d in applied[..k]
    ensures load.Loaded? && !res.value.NoVersion? && !res.value.UnknownVersion? && TagsOf(scripts, false) == {} ==>
              (res.value.Aborted? <==> HasCycle(DeclaredRules(scripts), ToApply(DeclaredRules(scripts), InitialTags(scripts, v))))
  {
    var reg := new Registry();
    ghost var objs;
    load, objs := reg.LoadAll(scripts);
    if !load.Loaded? {
      return load, None, [];
    }
    ghost var r := DeclaredRules(scripts);
    var file;
    file, applied := reg.ProcessFile(r, v);
    if v.LegacyNumber? { VersionTagsAsDeclared(reg, scripts, objs, v.number); }
    res := Some(file);
    assert Migrated(scripts, v, file, applied);
    forall t, up ensures t in TagsOf(scripts, up) <==> HasScript(scripts, t, up) { TagsOfIs(scripts, t, up); }
    if file.Written? || file.Unchanged? {
      forall t ensures t in applied <==> IsDue(scripts, InitialTags(scripts, v), t) { AppliedAre(scripts, v, file, applied, t); }
    }
    if !file.NoVersion? && !file.UnknownVersion? {
      forall k, d | 0 <= k < |applied| && DependsOn(scripts, applied[k], d)
        ensures d in InitialTags(scripts, v) || d in applied[..k]
      {
        AppliedAfter(scripts, v, file, applied, k, d);
      }
    }
    if TagsOf(scripts, false) == {} {
      DeclaredRulesAudited(scripts);
      AbortsIffCycle(r, InitialTags(scripts, v));
    }
  }
}
