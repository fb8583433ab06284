/** The promotion planner, and a promotion run that stops anywhere. */
module PromotionPlan {
  import opened Wrappers
  import opened Packages
  import opened ReleasePlan

  datatype PromotionPlan = PromotionPlan(promote: seq<Release>, alreadyPromoted: int)

  datatype PromotionError =
    | SameTags(tag: string)
    | Unversioned(name: string)
    | Unregistered(name: string)
    | NotPublished(name: string)
    | Preview(name: string)
    | NotStaged(name: string)
    | TargetBackwards(name: string)

  // ------------------------------------------------------------------- previews

  function Split(s: string, separator: char): (parts: seq<string>)
    ensures |parts| > 0
  {
    if s == "" then [""]
    else
      var rest := Split(s[1..], separator);
      if s[0] == separator then [""] + rest else [[s[0]] + rest[0]] + rest[1..]
  }

  /** The 0.0 line. */
  predicate IsPreviewRelease(version: string) {
    var parts := Split(version, '.');
    |parts| >= 2 && parts[0] == "0" && parts[1] == "0"
  }

  /** A part of a split is what precedes a separator or the end. */
  lemma {:induction false} FirstPartIs(s: string, separator: char, part: char)
    requires part != separator
    ensures Split(s, separator)[0] == [part] <==> s == [part] || (|s| >= 2 && s[0] == part && s[1] == separator)
  {
    if |s| >= 2 {
      assert s == [s[0]] + s[1..];
      var rest := Split(s[1..], separator)[0];
      assert rest == "" <==> s[1] == separator;
      assert [s[0]] + rest == [part] <==> s[0] == part && rest == "" by {
        assert |[s[0]] + rest| == 1 + |rest|;
        assert ([s[0]] + rest)[0] == s[0];
      }
    } else if |s| == 1 {
      assert s[1..] == "" && s == [s[0]];
    }
  }

  lemma PreviewIsTheZeroZeroLine(version: string)
    ensures IsPreviewRelease(version) <==> version == "0.0" || "0.0." <= version
  {
    FirstPartIs(version, '.', '0');
    if |version| >= 2 && version[0] == '0' && version[1] == '.' {
      assert Split(version[1..], '.') == [""] + Split(version[1..][1..], '.');
      assert version[1..][1..] == version[2..];
      assert Split(version, '.') == ["0"] + Split(version[2..], '.');
      FirstPartIs(version[2..], '.', '0');
      assert version == "0." + version[2..];
    }
  }

  // ----------------------------------------------------------------- one package

  predicate OnTarget(p: Package, registries: Registries, target: string)
    requires p.Name() in registries
  {
    p.version.Some? && registries[p.Name()].Tag(target) == p.version
  }

  /** What stops a package from being promoted, or from having been. */
  function Blocks(semver: Semver, p: Package, registries: Registries, source: string,
                  target: string): Option<PromotionError> {
    if Blank(p.version) then Some(Unversioned(p.Name()))
    else if p.Name() !in registries then Some(Unregistered(p.Name()))
    else if p.version.value !in registries[p.Name()].versions then Some(NotPublished(p.Name()))
    else if OnTarget(p, registries, target) then None
    else if IsPreviewRelease(p.version.value) then Some(Preview(p.Name()))
    else if registries[p.Name()].Tag(source) != p.version then Some(NotStaged(p.Name()))
    else if !NotBehind(semver, p.version.value, registries[p.Name()].Tag(target)) then Some(TargetBackwards(p.Name()))
    else None
  }

  function FirstBlock(semver: Semver, ordered: seq<Package>, registries: Registries, source: string, target: string)
    : Option<PromotionError>
  {
    if ordered == [] then None
    else
      var first := Blocks(semver, ordered[0], registries, source, target);
      if first.Some? then first else FirstBlock(semver, ordered[1..], registries, source, target)
  }

  lemma {:induction false} NothingBlocks(semver: Semver, ordered: seq<Package>, registries: Registries, source: string,
                                         target: string)
    ensures FirstBlock(semver, ordered, registries, source, target).None? <==>
            forall p | p in ordered :: Blocks(semver, p, registries, source, target).None?
  {
    hide Blocks;
    if ordered != [] {
      NothingBlocks(semver, ordered[1..], registries, source, target);
      assert forall p :: p in ordered <==> p == ordered[0] || p in ordered[1..];
    }
  }

  /** The packages not on the target yet. */
  function Promotions(ordered: seq<Package>, registries: Registries, target: string): (releases: seq<Release>)
    ensures |releases| <= |ordered|
  {
    if ordered == [] then []
    else
      var p := ordered[0];
      (if p.version.Some? && p.Name() in registries && !OnTarget(p, registries, target) then [ReleaseOf(p)] else [])
        + Promotions(ordered[1..], registries, target)
  }

  function PlanOf(semver: Semver, ordered: seq<Package>, registries: Registries, source: string, target: string)
    : Result<PromotionPlan, PromotionError>
  {
    var blocked := FirstBlock(semver, ordered, registries, source, target);
    var promote := Promotions(ordered, registries, target);
    if source == target then Err(SameTags(source))
    else if blocked.Some? then Err(blocked.value)
    else Ok(PromotionPlan(promote, |ordered| - |promote|))
  }

  /** The loop's state at package `i`: nothing blocked so far, and the promotions still to come complete these. */
  ghost predicate Planned(semver: Semver, ordered: seq<Package>, i: nat, registries: Registries, source: string,
                          target: string, promote: seq<Release>)
    requires i <= |ordered|
  {
    FirstBlock(semver, ordered, registries, source, target) == FirstBlock(semver, ordered[i..], registries, source, target)
    && promote + Promotions(ordered[i..], registries, target) == Promotions(ordered, registries, target)
  }

  method CreatePackagePromotionPlan(semver: Semver, ordered: seq<Package>, registries: Registries,
                                    source: string, target: string)
    returns (r: Result<PromotionPlan, PromotionError>)
    ensures r == PlanOf(semver, ordered, registries, source, target)
  {
    if source == target {
      return Err(SameTags(source));
    }
    hide FirstBlock, Promotions, NotBehind, Blank, IsPreviewRelease, Planned;
    var promote := [];
    NothingPlanned(semver, ordered, registries, source, target);
    for index := 0 to |ordered|
      invariant Planned(semver, ordered, index, registries, source, target, promote)
    {
      var p := ordered[index];
      PlannedNext(semver, ordered, index, registries, source, target, promote);
      if Blank(p.version) {
        return Err(Unversioned(p.Name()));
      }
      if p.Name() !in registries {
        return Err(Unregistered(p.Name()));
      }
      var registry := registries[p.Name()];
      assert p.version.Some? by { BlankWithout(p.version); }
      if p.version.value !in registry.versions {
        return Err(NotPublished(p.Name()));
      }
      if registry.Tag(target) != p.version {
        if IsPreviewRelease(p.version.value) {
          return Err(Preview(p.Name()));
        }
        if registry.Tag(source) != p.version {
          return Err(NotStaged(p.Name()));
        }
        if !NotBehind(semver, p.version.value, registry.Tag(target)) {
          return Err(TargetBackwards(p.Name()));
        }
        promote := promote + [ReleaseOf(p)];
      }
    }
    AllPlanned(semver, ordered, registries, source, target, promote);
    r := Ok(PromotionPlan(promote, |ordered| - |promote|));
  }

  lemma {:induction false} NextBlock(semver: Semver, ordered: seq<Package>, i: nat, registries: Registries,
                                     source: string, target: string)
    requires i < |ordered|
    ensures var first := Blocks(semver, ordered[i], registries, source, target);
            FirstBlock(semver, ordered[i..], registries, source, target)
            == if first.Some? then first else FirstBlock(semver, ordered[i + 1..], registries, source, target)
  {
    hide Blocks;
    assert ordered[i..][1..] == ordered[i + 1..];
  }

  lemma {:induction false} NextPromotion(ordered: seq<Package>, i: nat, registries: Registries, target: string)
    requires i < |ordered|
    ensures var p := ordered[i];
            Promotions(ordered[i..], registries, target)
            == if p.version.Some? && p.Name() in registries && !OnTarget(p, registries, target)
               then [ReleaseOf(p)] + Promotions(ordered[i + 1..], registries, target)
               else Promotions(ordered[i + 1..], registries, target)
  {
    assert ordered[i..][1..] == ordered[i + 1..];
  }

  lemma NothingPlanned(semver: Semver, ordered: seq<Package>, registries: Registries, source: string, target: string)
    ensures Planned(semver, ordered, 0, registries, source, target, [])
  {
    assert ordered[0..] == ordered;
  }

  lemma {:induction false} AllPlanned(semver: Semver, ordered: seq<Package>, registries: Registries, source: string,
                                      target: string,
                                      promote: seq<Release>)
    requires Planned(semver, ordered, |ordered|, registries, source, target, promote)
    ensures FirstBlock(semver, ordered, registries, source, target).None?
    ensures promote == Promotions(ordered, registries, target)
  {
    assert ordered[|ordered|..] == [] && promote + [] == promote;
  }

  lemma {:induction false} PlannedNext(semver: Semver, ordered: seq<Package>, i: nat, registries: Registries,
                                       source: string, target: string,
                                       promote: seq<Release>)
    requires i < |ordered| && Planned(semver, ordered, i, registries, source, target, promote)
    ensures var p, blocked := ordered[i], Blocks(semver, ordered[i], registries, source, target);
            if blocked.Some? then FirstBlock(semver, ordered, registries, source, target) == blocked
            else p.version.Some? && p.Name() in registries
                 && Planned(semver, ordered, i + 1, registries, source, target,
                            if OnTarget(p, registries, target) then promote else promote + [ReleaseOf(p)])
  {
    NextBlock(semver, ordered, i, registries, source, target);
    NextPromotion(ordered, i, registries, target);
    if Blocks(semver, ordered[i], registries, source, target).None? {
      BlockedWithout(semver, ordered[i], registries, source, target);
    }
    hide FirstBlock, Promotions, Blocks, OnTarget;
    var p, later := ordered[i], Promotions(ordered[i + 1..], registries, target);
    if Blocks(semver, p, registries, source, target).None? {
      AppendOne(promote, ReleaseOf(p), later);
    }
  }

  lemma AppendOne<T>(before: seq<T>, x: T, later: seq<T>)
    ensures before + ([x] + later) == before + [x] + later
  {
  }

  lemma BlockedWithout(semver: Semver, p: Package, registries: Registries, source: string, target: string)
    requires Blocks(semver, p, registries, source, target).None?
    ensures p.version.Some? && p.Name() in registries
  {
  }

  lemma BlankWithout(version: Option<string>)
    requires !Blank(version)
    ensures version.Some?
  {
  }

  // --------------------------------------------------------------- a stopped run

  function Promote(registries: Registries, release: Release, target: string): (after: Registries)
    ensures after.Keys == registries.Keys
  {
    if release.name !in registries then registries
    else
      var registry := registries[release.name];
      registries[release.name := registry.(tags := registry.tags[target := release.version])]
  }

  function PromoteAll(registries: Registries, releases: seq<Release>, target: string): (after: Registries)
    ensures after.Keys == registries.Keys
  {
    if releases == [] then registries else PromoteAll(Promote(registries, releases[0], target), releases[1..], target)
  }

  /** Promoting another package changes nothing for these. */
  lemma {:induction false} OthersUnchanged(ordered: seq<Package>, registries: Registries, release: Release,
                                           target: string)
    requires forall p | p in ordered :: p.Name() != release.name
    ensures Promotions(ordered, Promote(registries, release, target), target) == Promotions(ordered, registries, target)
  {
    if ordered != [] {
      assert ordered[0] in ordered;
      OthersUnchanged(ordered[1..], registries, release, target);
    }
  }

  /** After the first promotion, the rest of the plan is left. */
  lemma {:induction false} FirstPromotion(ordered: seq<Package>, registries: Registries, target: string)
    requires DistinctNames(ordered) && Promotions(ordered, registries, target) != []
    ensures var promote := Promotions(ordered, registries, target);
            Promotions(ordered, Promote(registries, promote[0], target), target) == promote[1..]
            && exists p :: p in ordered && p.version.Some? && p.Name() in registries && promote[0] == ReleaseOf(p)
                           && !OnTarget(p, registries, target)
  {
    var promote, p, rest := Promotions(ordered, registries, target), ordered[0], ordered[1..];
    assert forall q | q in rest :: q.Name() != p.Name();
    if promote[0].name == p.Name() && p.version.Some? && p.Name() in registries && !OnTarget(p, registries, target) {
      assert promote[1..] == Promotions(rest, registries, target);
      assert p in ordered;
      OthersUnchanged(rest, registries, promote[0], target);
    } else {
      FirstPromotion(rest, registries, target);
      hide Promotions;
      var q :| q in rest && q.version.Some? && q.Name() in registries && promote[0] == ReleaseOf(q)
               && !OnTarget(q, registries, target);
      assert q in ordered;
    }
  }

  /** Promoting a package that nothing blocks leaves nothing blocked. */
  lemma NothingBlocksAfterFirst(semver: Semver, ordered: seq<Package>, registries: Registries, source: string,
                                target: string,
                                done: Package)
    requires DistinctNames(ordered) && done in ordered && done.version.Some? && source != target
    requires forall p | p in ordered :: Blocks(semver, p, registries, source, target).None?
    ensures var after := Promote(registries, ReleaseOf(done), target);
            forall p | p in ordered :: Blocks(semver, p, after, source, target).None?
  {
    var after := Promote(registries, ReleaseOf(done), target);
    hide IsPreviewRelease, NotBehind;
    forall p | p in ordered ensures Blocks(semver, p, after, source, target).None? {
      assert Blocks(semver, p, registries, source, target).None?;
      if p.Name() == done.Name() {
        assert p == done;
      }
    }
  }

  /** After the first promotion, planning again gives the plan less that promotion. */
  lemma {:induction false} PlanAfterFirst(semver: Semver, ordered: seq<Package>, registries: Registries,
                                          source: string, target: string)
    requires DistinctNames(ordered) && PlanOf(semver, ordered, registries, source, target).Ok?
    requires Promotions(ordered, registries, target) != []
    ensures var promote := Promotions(ordered, registries, target);
            PlanOf(semver, ordered, Promote(registries, promote[0], target), source, target)
            == Ok(PromotionPlan(promote[1..], |ordered| - |promote| + 1))
  {
    var promote := Promotions(ordered, registries, target);
    NothingBlocks(semver, ordered, registries, source, target);
    FirstPromotion(ordered, registries, target);
    var p :| p in ordered && p.version.Some? && p.Name() in registries && promote[0] == ReleaseOf(p);
    hide Blocks, DistinctNames, Promote, OnTarget, Promotions, FirstBlock;
    NothingBlocksAfterFirst(semver, ordered, registries, source, target, p);
    NothingBlocks(semver, ordered, Promote(registries, promote[0], target), source, target);
  }

  /** Stop a promotion anywhere: planning again gives exactly the rest. */
  lemma {:induction false} StoppedPromotionResumes(semver: Semver, ordered: seq<Package>, registries: Registries,
                                                   source: string, target: string, k: nat)
    requires DistinctNames(ordered) && PlanOf(semver, ordered, registries, source, target).Ok?
    requires k <= |Promotions(ordered, registries, target)|
    ensures var promote := Promotions(ordered, registries, target);
            PlanOf(semver, ordered, PromoteAll(registries, promote[..k], target), source, target)
            == Ok(PromotionPlan(promote[k..], |ordered| - |promote| + k))
    decreases k
  {
    var promote := Promotions(ordered, registries, target);
    PlanPromotes(semver, ordered, registries, source, target);
    hide PlanOf, DistinctNames, Promote, Promotions;
    if k == 0 {
      assert promote[..0] == [] && promote[0..] == promote;
    } else {
      PlanAfterFirst(semver, ordered, registries, source, target);
      var after := Promote(registries, promote[0], target);
      PlanPromotes(semver, ordered, after, source, target);
      StoppedPromotionResumes(semver, ordered, after, source, target, k - 1);
      assert promote[..k][0] == promote[0] && promote[..k][1..] == promote[1..][..k - 1];
      assert promote[1..][k - 1..] == promote[k..];
    }
  }

  lemma {:induction false} PlanPromotes(semver: Semver, ordered: seq<Package>, registries: Registries, source: string,
                                        target: string)
    ensures var plan := PlanOf(semver, ordered, registries, source, target);
            plan.Ok? ==> plan.value.promote == Promotions(ordered, registries, target)
                         && plan.value.alreadyPromoted == |ordered| - |plan.value.promote|
  {
  }

  /** A finished promotion has put every package's workspace version on the target tag. */
  lemma {:induction false} FinishedPromotionIsComplete(semver: Semver, ordered: seq<Package>, registries: Registries,
                                                       source: string,
                                                       target: string, p: Package)
    requires DistinctNames(ordered) && PlanOf(semver, ordered, registries, source, target).Ok? && p in ordered
    ensures p.version.Some? && p.Name() in registries
    ensures OnTarget(p, PromoteAll(registries, Promotions(ordered, registries, target), target), target)
  {
    var promote := Promotions(ordered, registries, target);
    var after := PromoteAll(registries, promote, target);
    StoppedPromotionResumes(semver, ordered, registries, source, target, |promote|);
    assert promote[..|promote|] == promote;
    NothingBlocks(semver, ordered, registries, source, target);
    assert Blocks(semver, p, registries, source, target).None?;
    assert Promotions(ordered, after, target) == [];
    hide PlanOf, PromoteAll, FirstBlock, Blocks;
    NonePromotedOnTarget(ordered, after, target, p);
  }

  lemma {:induction false} NonePromotedOnTarget(ordered: seq<Package>, registries: Registries, target: string,
                                                p: Package)
    requires p in ordered && p.version.Some? && p.Name() in registries && Promotions(ordered, registries, target) == []
    ensures OnTarget(p, registries, target)
  {
    if p != ordered[0] {
      NonePromotedOnTarget(ordered[1..], registries, target, p);
    }
  }

  /** Every tag a promotion writes: staged under the source, no preview, and not behind what the target had. */
  lemma {:induction false} PromotionsAreForward(semver: Semver, ordered: seq<Package>, registries: Registries,
                                                source: string, target: string,
                                                release: Release)
    requires PlanOf(semver, ordered, registries, source, target).Ok?
    requires release in Promotions(ordered, registries, target)
    ensures release.name in registries && !IsPreviewRelease(release.version)
    ensures registries[release.name].Tag(source) == Some(release.version)
    ensures release.version in registries[release.name].versions
    ensures NotBehind(semver, release.version, registries[release.name].Tag(target))
  {
    NothingBlocks(semver, ordered, registries, source, target);
    var p := PromotedPackage(ordered, registries, target, release);
    assert Blocks(semver, p, registries, source, target).None?;
  }

  lemma {:induction false} PromotedPackage(ordered: seq<Package>, registries: Registries, target: string,
                                           release: Release)
    returns (p: Package)
    requires release in Promotions(ordered, registries, target)
    ensures p in ordered && p.version.Some? && p.Name() in registries && release == ReleaseOf(p)
            && !OnTarget(p, registries, target)
  {
    p := ordered[0];
    if !(p.version.Some? && p.Name() in registries && !OnTarget(p, registries, target) && release == ReleaseOf(p)) {
      p := PromotedPackage(ordered[1..], registries, target, release);
    }
  }

  /** A stopped promotion changes only the target tags of the packages it promoted; versions and other tags stay. */
  lemma {:induction false} OnlyTargetMoves(registries: Registries, releases: seq<Release>, target: string, name: string)
    requires name in registries
    ensures var before, after := registries[name], PromoteAll(registries, releases, target)[name];
            after.versions == before.versions
            && (forall tag | tag != target :: after.Tag(tag) == before.Tag(tag))
            && (after.Tag(target) == before.Tag(target)
                || exists j :: 0 <= j < |releases| && releases[j].name == name
                               && after.Tag(target) == Some(releases[j].version))
  {
    if releases != [] {
      var next := Promote(registries, releases[0], target);
      OnlyTargetMoves(next, releases[1..], target, name);
      hide PromoteAll;
      var after := PromoteAll(registries, releases, target)[name];
      if after.Tag(target) != registries[name].Tag(target) {
        if after.Tag(target) == next[name].Tag(target) {
          assert releases[0].name == name;
        } else {
          var j :| 0 <= j < |releases[1..]| && releases[1..][j].name == name
                   && after.Tag(target) == Some(releases[1..][j].version);
          assert releases[j + 1] == releases[1..][j];
        }
      }
    }
  }
}
