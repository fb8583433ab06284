/** What the publish planner decides, said of the manifests, versions and tags themselves. */
module PlanTheorems {
  import opened Wrappers
  import opened Packages
  import opened WorkspacePolicy
  import opened ReleasePlan
  import opened ReleaseTheorems

  /** A version with something in it besides white space. */
  predicate Named(version: Option<string>) {
    version.Some? && exists i :: 0 <= i < |version.value| && version.value[i] !in " \t\r\n"
  }

  lemma BlankIsUnnamed(version: Option<string>)
    ensures Blank(version) <==> !Named(version)
  {
    if version.Some? && !Named(version) {
      forall c | c in version.value ensures c in " \t\r\n" {
        var i :| 0 <= i < |version.value| && version.value[i] == c;
      }
    }
  }

  // ---------------------------------------------------------------- what is already out

  /** A name is declared in one field of several, with a range. */
  predicate DeclaredOnce(fields: Field -> map<string, string>, d: string, f: Field, range: string) {
    d in fields(f) && fields(f)[d] == range && forall g | d in fields(g) :: g == f
  }

  /** A published edge still means today's sibling: declared in one same field on both sides, exact for an exact
      workspace edge, and for a compatible one a caret range that today's version satisfies. */
  ghost predicate Upholds(semver: Semver, p: Package, m: Manifest, d: string, version: string, f: Field, local: string,
                          range: string)
  {
    && ("@sixb/" <= d || d == "create-sixb") && DeclaredOnce(p.Shipped, d, f, local)
    && range != "" && d in m.Shipped(f) && m.Shipped(f)[d] == range
    && (forall g | d in m.Shipped(g) && m.Shipped(g)[d] != "" :: g == f)
    && ((local == "workspace:*" && range == version)
        || (local == "workspace:^" && "^" <= range && semver.satisfies(version, range)))
  }

  /** A published edge leads to a workspace package with a version, and upholds what the workspace declares. */
  ghost predicate Upheld(semver: Semver, p: Package, m: Manifest, byName: map<string, Package>, d: string) {
    d in byName && Named(byName[d].version)
    && exists f, local, range :: Upholds(semver, p, m, d, byName[d].version.value, f, local, range)
  }

  /** The edges that count: what the workspace package ships inside the family, and what was published of the workspace. */
  ghost predicate Counts(p: Package, m: Manifest, byName: map<string, Package>, d: string) {
    || (("@sixb/" <= d || d == "create-sixb") && exists f: Field :: d in p.Shipped(f))
    || (d in byName && exists f: Field :: d in m.Shipped(f))
  }

  lemma CheckedEdgesCount(p: Package, m: Manifest, byName: map<string, Package>, d: string)
    ensures d in CheckedEdges(p, m, byName) <==> Counts(p, m, byName, d)
  {
    FamilyIsInternal(p, d);
    assert d in m.Names() <==> exists f: Field :: d in m.Shipped(f) by {
      assert d in m.dependencies ==> d in m.Shipped(Dependencies);
      assert d in m.peerDependencies ==> d in m.Shipped(PeerDependencies);
      assert d in m.optionalDependencies ==> d in m.Shipped(OptionalDependencies);
    }
  }

  lemma LocalEntryIs(p: Package, d: string, f: Field, local: string)
    ensures LocalEntry(p, d) == Some((f, local)) <==>
            ("@sixb/" <= d || d == "create-sixb") && DeclaredOnce(p.Shipped, d, f, local)
  {
  }

  lemma PublishedEntryIs(m: Manifest, d: string, f: Field, range: string)
    ensures PublishedEntry(m, d) == Some((f, range)) <==>
            range != "" && d in m.Shipped(f) && m.Shipped(f)[d] == range
            && forall g | d in m.Shipped(g) && m.Shipped(g)[d] != "" :: g == f
  {
  }

  lemma EdgeIsUpheld(semver: Semver, p: Package, m: Manifest, byName: map<string, Package>, d: string)
    ensures EdgeCompatible(semver, p, m, byName, d) <==> Upheld(semver, p, m, byName, d)
  {
    hide LocalEntry, PublishedEntry, DeclaredOnce;
    if d in byName {
      BlankIsUnnamed(byName[d].version);
      forall f, local, range
        ensures LocalEntry(p, d) == Some((f, local)) && PublishedEntry(m, d) == Some((f, range))
                && Named(byName[d].version) && RangeAccepts(semver, local, range, byName[d].version.value) <==>
                Named(byName[d].version) && Upholds(semver, p, m, d, byName[d].version.value, f, local, range)
      {
        LocalEntryIs(p, d, f, local);
        PublishedEntryIs(m, d, f, range);
      }
      if EdgeCompatible(semver, p, m, byName, d) {
        var local, published := LocalEntry(p, d).value, PublishedEntry(m, d).value;
        assert Upholds(semver, p, m, d, byName[d].version.value, local.0, local.1, published.1);
      }
    }
  }

  /** A version that is already out with edges that no longer hold. */
  ghost predicate Stale(semver: Semver, p: Package, registries: Registries, byName: map<string, Package>) {
    Named(p.version) && p.Name() in registries && p.version.value in registries[p.Name()].versions
    && exists d :: Counts(p, registries[p.Name()].versions[p.version.value], byName, d)
                   && !Upheld(semver, p, registries[p.Name()].versions[p.version.value], byName, d)
  }

  lemma StaleIsIncompatible(semver: Semver, p: Package, registries: Registries, byName: map<string, Package>)
    requires Named(p.version)
    ensures PackageCompatible(semver, p, registries, byName) <==> !Stale(semver, p, registries, byName)
  {
    hide EdgeCompatible, CheckedEdges, Counts, Upheld;
    if p.Name() in registries && p.version.value in registries[p.Name()].versions {
      var m := registries[p.Name()].versions[p.version.value];
      forall d ensures (d in CheckedEdges(p, m, byName) ==> EdgeCompatible(semver, p, m, byName, d)) <==>
                       (Counts(p, m, byName, d) ==> Upheld(semver, p, m, byName, d)) {
        CheckedEdgesCount(p, m, byName, d);
        EdgeIsUpheld(semver, p, m, byName, d);
      }
    }
  }

  /** The policy: every edge inside the family is declared once, where and how it is expected, and a peer is also
      developed against. */
  lemma PolicyOnManifests(p: Package)
    ensures MeetsPolicy(p) <==>
            forall d, f: Field | ("@sixb/" <= d || d == "create-sixb") && d in p.Shipped(f) ::
              var expected := ExpectedWorkspaceDependency(p, d);
              && DeclaredOnce(p.Shipped, d, expected.0, expected.1)
              && (expected.0 == PeerDependencies ==> d in p.devDependencies && p.devDependencies[d] == "workspace:*")
  {
    hide ExpectedWorkspaceDependency, DeclaredOnce, LocalEntry, InternalDependencies;
    forall d ensures d in InternalDependencies(p) <==>
                     ("@sixb/" <= d || d == "create-sixb") && exists f: Field :: d in p.Shipped(f) {
      FamilyIsInternal(p, d);
    }
    forall d | "@sixb/" <= d || d == "create-sixb"
      ensures var expected := ExpectedWorkspaceDependency(p, d);
              LocalEntry(p, d) == Some(expected) <==> DeclaredOnce(p.Shipped, d, expected.0, expected.1)
    {
      var expected := ExpectedWorkspaceDependency(p, d);
      LocalEntryIs(p, d, expected.0, expected.1);
    }
  }

  // ------------------------------------------------------------------ what becomes of each

  predicate IsOut(p: Package, registry: Registry) {
    p.version.Some? && p.version.value in registry.versions
  }

  /** The version under a tag other than "latest", while "latest" is another one or none. */
  predicate IsStaged(p: Package, registry: Registry, tag: string) {
    && IsOut(p, registry) && tag != "latest"
    && tag in registry.tags && p.version == Some(registry.tags[tag])
    && ("latest" in registry.tags ==> p.version != Some(registry.tags["latest"]))
  }

  /** A package nobody has published anything of waits for "latest". */
  predicate IsInitial(registry: Registry, tag: string) {
    registry.versions == map[] && tag != "latest"
  }

  /** A tag, if it names a version, names one the package's version is not behind. */
  predicate Forward(semver: Semver, p: Package, registry: Registry, tag: string) {
    p.version.Some? && tag in registry.tags && registry.tags[tag] != "" ==>
      semver.order(p.version.value, registry.tags[tag]) >= 0
  }

  /** What the planner checks of a package before it classifies it. */
  ghost predicate Sound(semver: Semver, p: Package, registries: Registries, tag: string) {
    && Named(p.version) && p.Name() in registries
    && var registry := registries[p.Name()];
       (!IsOut(p, registry) || IsStaged(p, registry, tag)) ==>
         Forward(semver, p, registry, tag) && Forward(semver, p, registry, "latest")
  }

  /** Every package is in exactly one class, by its version and tags; or it fails, by the first reason that applies. */
  lemma ClassByVersionAndTags(semver: Semver, p: Package, registries: Registries, tag: string)
    ensures Classify(semver, p, registries, tag).Ok? <==> Sound(semver, p, registries, tag)
    ensures Classify(semver, p, registries, tag) == Err(NoVersion(p.Name())) <==> !Named(p.version)
    ensures Classify(semver, p, registries, tag) == Err(RegistryMissing(p.Name())) <==>
            Named(p.version) && p.Name() !in registries
    ensures Sound(semver, p, registries, tag) ==>
              var registry, class_ := registries[p.Name()], Classify(semver, p, registries, tag).value;
              && (class_ == Publishes <==> !IsOut(p, registry) && !IsInitial(registry, tag))
              && (class_ == Defers <==> !IsOut(p, registry) && IsInitial(registry, tag))
              && (class_ == Stages <==> IsStaged(p, registry, tag))
              && (class_ == Skips <==> IsOut(p, registry) && !IsStaged(p, registry, tag))
  {
    BlankIsUnnamed(p.version);
  }

  /** The releases of the packages that satisfy a condition, in order. */
  function Where(ordered: seq<Package>, keep: Package -> bool): (releases: seq<Release>) {
    if ordered == [] then []
    else
      var p := ordered[|ordered| - 1];
      Where(ordered[..|ordered| - 1], keep)
        + if keep(p) && p.version.Some? then [Release(p, p.Name(), p.version.value)] else []
  }

  predicate GoesOut(p: Package, registries: Registries, tag: string) {
    p.Name() in registries && !IsOut(p, registries[p.Name()]) && !IsInitial(registries[p.Name()], tag)
  }

  predicate Waits(p: Package, registries: Registries, tag: string) {
    p.Name() in registries && !IsOut(p, registries[p.Name()]) && IsInitial(registries[p.Name()], tag)
  }

  predicate Promotable(p: Package, registries: Registries, tag: string) {
    p.Name() in registries && IsStaged(p, registries[p.Name()], tag)
  }

  lemma {:induction false} PickedAre(semver: Semver, ordered: seq<Package>, registries: Registries, tag: string,
                                     class_: Class, keep: Package -> bool)
    requires Classified(semver, ordered, registries, tag)
    requires forall p | p in ordered :: Classify(semver, p, registries, tag) == Ok(class_) <==> keep(p)
    ensures Pick(semver, ordered, registries, tag, class_) == Where(ordered, keep)
  {
    hide Classify;
    if ordered != [] {
      var n := |ordered| - 1;
      assert forall i | 0 <= i < n :: ordered[..n][i] == ordered[i];
      PickedAre(semver, ordered[..n], registries, tag, class_, keep);
    }
  }

  // ------------------------------------------------------------------ the whole plan

  /** A dependency is on the registry in today's version, or goes out before. */
  ghost predicate Met(registries: Registries, byName: map<string, Package>, earlier: seq<Release>, d: string) {
    && d in byName && Named(byName[d].version)
    && var version := byName[d].version.value;
       (d in registries && version in registries[d].versions)
       || exists j | 0 <= j < |earlier| :: earlier[j].name == d && earlier[j].version == version
  }

  /** Everything of the family that a release ships with is. */
  ghost predicate Supplied(registries: Registries, byName: map<string, Package>, earlier: seq<Release>, release: Release) {
    forall d, f: Field | ("@sixb/" <= d || d == "create-sixb") && d in release.packageInfo.Shipped(f) ::
      Met(registries, byName, earlier, d)
  }

  lemma FamilyIsInternal(p: Package, d: string)
    ensures d in InternalDependencies(p) <==>
            ("@sixb/" <= d || d == "create-sixb") && exists f: Field :: d in p.Shipped(f)
  {
    assert d in p.dependencies ==> d in p.Shipped(Dependencies);
    assert d in p.peerDependencies ==> d in p.Shipped(PeerDependencies);
    assert d in p.optionalDependencies ==> d in p.Shipped(OptionalDependencies);
  }

  lemma SuppliedIsReady(registries: Registries, byName: map<string, Package>, earlier: seq<Release>, release: Release)
    ensures ReleaseReady(registries, byName, earlier, release) <==> Supplied(registries, byName, earlier, release)
  {
    hide InternalDependencies;
    forall d ensures d in InternalDependencies(release.packageInfo) <==>
                     ("@sixb/" <= d || d == "create-sixb") && exists f: Field :: d in release.packageInfo.Shipped(f) {
      FamilyIsInternal(release.packageInfo, d);
    }
    forall d ensures DependencyReady(registries, byName, earlier, d) <==> Met(registries, byName, earlier, d) {
      if d in byName {
        BlankIsUnnamed(byName[d].version);
      }
    }
    hide DependencyReady, Met;
  }

  /**
    There is a plan exactly when every package is named, on a registry and moves no tag
    back, nothing that is out has gone stale, and every release is supplied. It publishes
    what is new, defers what would be the first version of its package under another tag
    than "latest", and stages what "latest" has still to be promoted to.
   */
  lemma {:induction false} PlanOnManifests(semver: Semver, ordered: seq<Package>, registries: Registries, tag: string)
    ensures var plan, byName := PlanOf(semver, ordered, registries, tag), ByName(ordered);
            var publish := Where(ordered, p => GoesOut(p, registries, tag));
            && (plan.Ok? <==>
                  && (forall p | p in ordered :: Sound(semver, p, registries, tag))
                  && (forall p | p in ordered :: !Stale(semver, p, registries, byName))
                  && (forall i | 0 <= i < |publish| :: Supplied(registries, byName, publish[..i], publish[i])))
            && (plan.Ok? ==>
                  && plan.value.publish == publish
                  && plan.value.deferredInitial == Where(ordered, p => Waits(p, registries, tag))
                  && plan.value.stagedForPromotion == Where(ordered, p => Promotable(p, registries, tag))
                  && plan.value.alreadyPublished + |publish| + |plan.value.deferredInitial| == |ordered|)
  {
    hide Classify, Sound, Stale, PackageCompatible, ReleaseReady, Supplied, ByName, FirstError, FirstIncompatible;
    hide FirstUnavailable, Where, Pick;
    PlanExists(semver, ordered, registries, tag);
    SoundIsClassified(semver, ordered, registries, tag);
    if Classified(semver, ordered, registries, tag) {
      PicksAreWhere(semver, ordered, registries, tag);
      CompatibleIsNotStale(semver, ordered, registries, ByName(ordered));
      ReadyIsSupplied(registries, ByName(ordered), Pick(semver, ordered, registries, tag, Publishes));
    }
  }

  lemma SoundIsClassified(semver: Semver, ordered: seq<Package>, registries: Registries, tag: string)
    ensures Classified(semver, ordered, registries, tag) <==> forall p | p in ordered :: Sound(semver, p, registries, tag)
  {
    hide Classify, Sound;
    forall p ensures Classify(semver, p, registries, tag).Ok? <==> Sound(semver, p, registries, tag) {
      ClassByVersionAndTags(semver, p, registries, tag);
    }
    assert forall i | 0 <= i < |ordered| :: ordered[i] in ordered;
  }

  lemma CompatibleIsNotStale(semver: Semver, ordered: seq<Package>, registries: Registries, byName: map<string, Package>)
    requires forall p | p in ordered :: Named(p.version)
    ensures Compatible(semver, ordered, registries, byName) <==>
            forall p | p in ordered :: !Stale(semver, p, registries, byName)
  {
    hide PackageCompatible, Stale, Named;
    forall p | p in ordered ensures PackageCompatible(semver, p, registries, byName) <==> !Stale(semver, p, registries, byName) {
      StaleIsIncompatible(semver, p, registries, byName);
    }
    assert forall i | 0 <= i < |ordered| :: ordered[i] in ordered;
  }

  lemma ReadyIsSupplied(registries: Registries, byName: map<string, Package>, publish: seq<Release>)
    ensures Ready(registries, byName, publish) <==>
            forall i | 0 <= i < |publish| :: Supplied(registries, byName, publish[..i], publish[i])
  {
    hide ReleaseReady, Supplied;
    forall i | 0 <= i < |publish|
      ensures ReleaseReady(registries, byName, publish[..i], publish[i]) <==>
              Supplied(registries, byName, publish[..i], publish[i])
    {
      SuppliedIsReady(registries, byName, publish[..i], publish[i]);
    }
  }

  lemma PicksAreWhere(semver: Semver, ordered: seq<Package>, registries: Registries, tag: string)
    requires Classified(semver, ordered, registries, tag)
    ensures forall p | p in ordered :: Named(p.version)
    ensures Pick(semver, ordered, registries, tag, Publishes) == Where(ordered, p => GoesOut(p, registries, tag))
    ensures Pick(semver, ordered, registries, tag, Defers) == Where(ordered, p => Waits(p, registries, tag))
    ensures Pick(semver, ordered, registries, tag, Stages) == Where(ordered, p => Promotable(p, registries, tag))
  {
    SoundIsClassified(semver, ordered, registries, tag);
    hide Classify, IsOut, IsStaged, IsInitial, Forward, Named;
    forall p | p in ordered
      ensures Named(p.version)
      ensures Classify(semver, p, registries, tag) == Ok(Publishes) <==> GoesOut(p, registries, tag)
      ensures Classify(semver, p, registries, tag) == Ok(Defers) <==> Waits(p, registries, tag)
      ensures Classify(semver, p, registries, tag) == Ok(Stages) <==> Promotable(p, registries, tag)
    {
      ClassByVersionAndTags(semver, p, registries, tag);
    }
    PickedAre(semver, ordered, registries, tag, Publishes, p => GoesOut(p, registries, tag));
    PickedAre(semver, ordered, registries, tag, Defers, p => Waits(p, registries, tag));
    PickedAre(semver, ordered, registries, tag, Stages, p => Promotable(p, registries, tag));
  }
}
