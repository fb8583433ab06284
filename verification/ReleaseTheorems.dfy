/** A publish run, stopped anywhere: what it leaves on the registry, and what planning again then finds. */
module ReleaseTheorems {
  import opened Wrappers
  import opened Packages
  import opened WorkspacePolicy
  import opened ReleasePlan
  import opened Names
  import opened TopologicalOrder

  // ------------------------------------------------------------ what publishing writes

  /** A workspace range becomes today's sibling version when the package is packed. */
  function Resolve(byName: map<string, Package>, d: string, range: string): string {
    if d !in byName || byName[d].version.None? then range
    else if range == EXACT then byName[d].version.value
    else if range == COMPATIBLE then "^" + byName[d].version.value
    else range
  }

  function ResolveAll(byName: map<string, Package>, field: map<string, string>): map<string, string> {
    map d | d in field :: Resolve(byName, d, field[d])
  }

  function Packed(p: Package, byName: map<string, Package>): Manifest {
    Manifest(ResolveAll(byName, p.dependencies), ResolveAll(byName, p.peerDependencies),
             ResolveAll(byName, p.optionalDependencies))
  }

  /** The version appears, and the tag names it. A package's first version only ever goes out under `latest`. */
  function Published(registry: Registry, release: Release, tag: string, byName: map<string, Package>): Registry {
    Registry(registry.versions[release.version := Packed(release.packageInfo, byName)],
             registry.tags[tag := release.version])
  }

  predicate Targets(releases: seq<Release>, registries: Registries) {
    forall i | 0 <= i < |releases| :: releases[i].name in registries
  }

  function PublishAll(registries: Registries, releases: seq<Release>, tag: string, byName: map<string, Package>)
    : (after: Registries)
    requires Targets(releases, registries)
    ensures after.Keys == registries.Keys
  {
    if releases == [] then registries
    else
      var n := |releases| - 1;
      var before := PublishAll(registries, releases[..n], tag, byName);
      before[releases[n].name := Published(before[releases[n].name], releases[n], tag, byName)]
  }

  // ------------------------------------------------------- when each check passes

  predicate Classified(semver: Semver, ordered: seq<Package>, registries: Registries, tag: string) {
    forall i | 0 <= i < |ordered| :: Classify(semver, ordered[i], registries, tag).Ok?
  }

  predicate Compatible(semver: Semver, ordered: seq<Package>, registries: Registries, byName: map<string, Package>) {
    forall i | 0 <= i < |ordered| :: PackageCompatible(semver, ordered[i], registries, byName)
  }

  predicate Ready(registries: Registries, byName: map<string, Package>, publish: seq<Release>) {
    forall i | 0 <= i < |publish| :: ReleaseReady(registries, byName, publish[..i], publish[i])
  }

  lemma {:induction false} AllClassified(semver: Semver, ordered: seq<Package>, registries: Registries, tag: string)
    ensures FirstError(semver, ordered, registries, tag).None? <==> Classified(semver, ordered, registries, tag)
  {
    hide Classify;
    if ordered != [] {
      var n := |ordered| - 1;
      AllClassified(semver, ordered[..n], registries, tag);
      assert forall i | 0 <= i < n :: ordered[..n][i] == ordered[i];
    }
  }

  lemma {:induction false} AllCompatible(semver: Semver, ordered: seq<Package>, registries: Registries,
                                         byName: map<string, Package>)
    ensures FirstIncompatible(semver, ordered, registries, byName).None? <==>
            Compatible(semver, ordered, registries, byName)
  {
    hide PackageCompatible;
    if ordered != [] {
      var n := |ordered| - 1;
      AllCompatible(semver, ordered[..n], registries, byName);
      assert forall i | 0 <= i < n :: ordered[..n][i] == ordered[i];
    }
  }

  lemma {:induction false} AllReady(registries: Registries, byName: map<string, Package>, publish: seq<Release>)
    ensures FirstUnavailable(registries, byName, publish).None? <==> Ready(registries, byName, publish)
  {
    hide ReleaseReady;
    if publish != [] {
      var n := |publish| - 1;
      AllReady(registries, byName, publish[..n]);
      assert forall i | 0 <= i < n :: publish[..n][i] == publish[i] && publish[..n][..i] == publish[..i];
    }
  }

  /** A plan exists exactly when every package is classified, compatible, and every release ready. */
  lemma {:induction false} PlanExists(semver: Semver, ordered: seq<Package>, registries: Registries, tag: string)
    ensures PlanOf(semver, ordered, registries, tag).Ok? <==>
            Classified(semver, ordered, registries, tag)
            && Compatible(semver, ordered, registries, ByName(ordered))
            && Ready(registries, ByName(ordered), Pick(semver, ordered, registries, tag, Publishes))
  {
    hide Classified, Compatible, Ready, ByName, Pick;
    AllClassified(semver, ordered, registries, tag);
    AllCompatible(semver, ordered, registries, ByName(ordered));
    AllReady(registries, ByName(ordered), Pick(semver, ordered, registries, tag, Publishes));
    hide FirstError, FirstIncompatible, FirstUnavailable;
  }

  // -------------------------------------------------------------- picking one class

  predicate InClass(semver: Semver, p: Package, registries: Registries, tag: string, class_: Class) {
    p.version.Some? && Classify(semver, p, registries, tag) == Ok(class_)
  }

  /** How many of the first `i` packages are in a class. */
  function Before(semver: Semver, ordered: seq<Package>, registries: Registries, tag: string, class_: Class,
                  i: nat): nat
    requires i <= |ordered|
  {
    |Pick(semver, ordered[..i], registries, tag, class_)|
  }

  lemma {:induction false} PickNext(semver: Semver, ordered: seq<Package>, registries: Registries, tag: string,
                                    class_: Class, i: nat)
    requires i < |ordered|
    ensures Pick(semver, ordered[..i + 1], registries, tag, class_)
            == if InClass(semver, ordered[i], registries, tag, class_)
               then Pick(semver, ordered[..i], registries, tag, class_) + [ReleaseOf(ordered[i])]
               else Pick(semver, ordered[..i], registries, tag, class_)
  {
    hide Classify;
    var upTo := ordered[..i + 1];
    assert upTo[..|upTo| - 1] == ordered[..i];
  }

  /** A shorter list of packages picks a prefix. */
  lemma {:induction false} PickPrefix(semver: Semver, ordered: seq<Package>, registries: Registries, tag: string,
                                      class_: Class, i: nat, k: nat)
    requires i <= k <= |ordered|
    ensures Pick(semver, ordered[..i], registries, tag, class_) <= Pick(semver, ordered[..k], registries, tag, class_)
    decreases k
  {
    hide Pick, Classify, InClass;
    if i < k {
      PickPrefix(semver, ordered, registries, tag, class_, i, k - 1);
      PickNext(semver, ordered, registries, tag, class_, k - 1);
    }
  }

  /** A package of the class is picked at the position counting those before it. */
  lemma {:induction false} PickPlace(semver: Semver, ordered: seq<Package>, registries: Registries, tag: string,
                                     class_: Class, i: nat)
    requires i < |ordered| && InClass(semver, ordered[i], registries, tag, class_)
    ensures var q, picked := Before(semver, ordered, registries, tag, class_, i), Pick(semver, ordered, registries, tag, class_);
            q < |picked| && picked[q] == ReleaseOf(ordered[i])
  {
    hide Pick, Classify;
    PickNext(semver, ordered, registries, tag, class_, i);
    PickPrefix(semver, ordered, registries, tag, class_, i + 1, |ordered|);
    assert ordered[..|ordered|] == ordered;
  }

  /** Every picked release is a package of the class, at its place. */
  lemma {:induction false} PickOrigin(semver: Semver, ordered: seq<Package>, registries: Registries, tag: string,
                                      class_: Class, i: nat, q: nat) returns (at: nat)
    requires i <= |ordered| && q < Before(semver, ordered, registries, tag, class_, i)
    ensures at < i && InClass(semver, ordered[at], registries, tag, class_)
            && q == Before(semver, ordered, registries, tag, class_, at)
            && Pick(semver, ordered[..i], registries, tag, class_)[q] == ReleaseOf(ordered[at])
    decreases i
  {
    hide Classify, InClass, Pick;
    PickNext(semver, ordered, registries, tag, class_, i - 1);
    if q < Before(semver, ordered, registries, tag, class_, i - 1) {
      at := PickOrigin(semver, ordered, registries, tag, class_, i - 1, q);
    } else {
      at := i - 1;
    }
  }

  // ---------------------------------------------------------------- a stopped run

  predicate LawfulAt(semver: Semver, version: string) {
    semver.order(version, version) >= 0 && semver.satisfies(version, "^" + version)
  }

  /** What a release train assumes: names are unique, the policy reports nothing, and a version is not below
      itself and is in its own caret range. */
  predicate Sane(semver: Semver, ordered: seq<Package>) {
    DistinctNames(ordered)
    && (forall p | p in ordered :: MeetsPolicy(p) && (p.version.Some? ==> LawfulAt(semver, p.version.value)))
  }

  predicate DistinctReleases(releases: seq<Release>) {
    forall i, j | 0 <= i < j < |releases| :: releases[i].name != releases[j].name
  }

  lemma {:induction false} OtherRegistry(registries: Registries, releases: seq<Release>, tag: string,
                                         byName: map<string, Package>, name: string)
    requires Targets(releases, registries) && name in registries
    requires forall i | 0 <= i < |releases| :: releases[i].name != name
    ensures PublishAll(registries, releases, tag, byName)[name] == registries[name]
  {
    hide Published;
    if releases != [] {
      OtherRegistry(registries, releases[..|releases| - 1], tag, byName, name);
    }
  }

  lemma {:induction false} ItsRegistry(registries: Registries, releases: seq<Release>, tag: string,
                                       byName: map<string, Package>, j: nat)
    requires Targets(releases, registries) && DistinctReleases(releases) && j < |releases|
    ensures PublishAll(registries, releases, tag, byName)[releases[j].name]
            == Published(registries[releases[j].name], releases[j], tag, byName)
  {
    hide Published;
    var n := |releases| - 1;
    if j < n {
      ItsRegistry(registries, releases[..n], tag, byName, j);
    } else {
      OtherRegistry(registries, releases[..n], tag, byName, releases[n].name);
    }
  }

  lemma PlannedOrigin(semver: Semver, ordered: seq<Package>, registries: Registries, tag: string, q: nat)
    returns (at: nat)
    requires q < |Pick(semver, ordered, registries, tag, Publishes)|
    ensures at < |ordered| && InClass(semver, ordered[at], registries, tag, Publishes)
            && q == Before(semver, ordered, registries, tag, Publishes, at)
            && Pick(semver, ordered, registries, tag, Publishes)[q] == ReleaseOf(ordered[at])
            && ordered[at].Name() in registries
  {
    hide Pick;
    assert ordered[..|ordered|] == ordered;
    at := PickOrigin(semver, ordered, registries, tag, Publishes, |ordered|, q);
  }

  /** The releases of a plan are distinct packages, each with a registry to go to. */
  lemma {:induction false} PlannedReleases(semver: Semver, ordered: seq<Package>, registries: Registries, tag: string)
    requires DistinctNames(ordered)
    ensures DistinctReleases(Pick(semver, ordered, registries, tag, Publishes))
    ensures Targets(Pick(semver, ordered, registries, tag, Publishes), registries)
  {
    var publish := Pick(semver, ordered, registries, tag, Publishes);
    hide Pick, InClass, Before;
    forall i | 0 <= i < |publish| ensures publish[i].name in registries {
      var at := PlannedOrigin(semver, ordered, registries, tag, i);
    }
    forall i, j | 0 <= i < j < |publish| ensures publish[i].name != publish[j].name {
      var a := PlannedOrigin(semver, ordered, registries, tag, i);
      var b := PlannedOrigin(semver, ordered, registries, tag, j);
    }
  }

  /** The registries once the first `k` releases of the plan are out. */
  function After(semver: Semver, ordered: seq<Package>, registries: Registries, tag: string,
                 k: nat): (after: Registries)
    requires DistinctNames(ordered) && k <= |Pick(semver, ordered, registries, tag, Publishes)|
    ensures after.Keys == registries.Keys
  {
    PlannedReleases(semver, ordered, registries, tag);
    PublishAll(registries, Pick(semver, ordered, registries, tag, Publishes)[..k], tag, ByName(ordered))
  }

  /** Package `i` is among the first `k` releases of the plan. */
  predicate IsOut(semver: Semver, ordered: seq<Package>, registries: Registries, tag: string, k: nat, i: nat)
    requires i < |ordered|
  {
    InClass(semver, ordered[i], registries, tag, Publishes)
    && Before(semver, ordered, registries, tag, Publishes, i) < k
  }

  lemma PlannedPlace(semver: Semver, ordered: seq<Package>, registries: Registries, tag: string, k: nat, i: nat)
    returns (q: nat)
    requires i < |ordered| && k <= |Pick(semver, ordered, registries, tag, Publishes)|
    requires IsOut(semver, ordered, registries, tag, k, i)
    ensures q < k && Pick(semver, ordered, registries, tag, Publishes)[..k][q] == ReleaseOf(ordered[i])
  {
    hide Pick, Classify;
    PickPlace(semver, ordered, registries, tag, Publishes, i);
    q := Before(semver, ordered, registries, tag, Publishes, i);
  }

  lemma {:induction false} NotPlanned(semver: Semver, ordered: seq<Package>, registries: Registries, tag: string,
                                      k: nat, i: nat)
    requires DistinctNames(ordered) && i < |ordered| && k <= |Pick(semver, ordered, registries, tag, Publishes)|
    requires !IsOut(semver, ordered, registries, tag, k, i)
    ensures forall j | 0 <= j < k :: Pick(semver, ordered, registries, tag, Publishes)[..k][j].name != ordered[i].Name()
  {
    var publish, name := Pick(semver, ordered, registries, tag, Publishes), ordered[i].Name();
    hide Pick, Classify, InClass, Before;
    forall j | 0 <= j < k ensures publish[..k][j].name != name {
      var at := PlannedOrigin(semver, ordered, registries, tag, j);
    }
  }

  /** A stopped run has changed the registries of the packages that are out, and no other. */
  lemma {:induction false} OnlyReleasesChange(semver: Semver, ordered: seq<Package>, registries: Registries,
                                              tag: string, k: nat, i: nat)
    requires DistinctNames(ordered) && k <= |Pick(semver, ordered, registries, tag, Publishes)|
    requires i < |ordered| && ordered[i].Name() in registries
    ensures var after, name := After(semver, ordered, registries, tag, k), ordered[i].Name();
            after[name] == if IsOut(semver, ordered, registries, tag, k, i)
                           then Published(registries[name], ReleaseOf(ordered[i]), tag, ByName(ordered))
                           else registries[name]
  {
    var publish, name := Pick(semver, ordered, registries, tag, Publishes), ordered[i].Name();
    PlannedReleases(semver, ordered, registries, tag);
    hide Pick, Classify, PublishAll, Published, ByName, InClass, Before;
    if IsOut(semver, ordered, registries, tag, k, i) {
      var q := PlannedPlace(semver, ordered, registries, tag, k, i);
      ItsRegistry(registries, publish[..k], tag, ByName(ordered), q);
    } else {
      NotPlanned(semver, ordered, registries, tag, k, i);
      OtherRegistry(registries, publish[..k], tag, ByName(ordered), name);
    }
  }

  /** A package just published is skipped next time, or is staged when `latest` is elsewhere. */
  lemma ClassOncePublished(semver: Semver, p: Package, registry: Registry, tag: string, byName: map<string, Package>)
    requires p.version.Some? && LawfulAt(semver, p.version.value)
    requires ClassifyIn(semver, p, registry, tag) == Ok(Publishes)
    ensures ClassifyIn(semver, p, Published(registry, ReleaseOf(p), tag, byName), tag)
            == if tag != LATEST && registry.Tag(LATEST) != p.version then Ok(Stages) else Ok(Skips)
  {
    hide Packed;
  }

  /** The class a package has after a stopped run. */
  function NewClass(semver: Semver, ordered: seq<Package>, registries: Registries, tag: string, k: nat, i: nat)
    : Result<Class, PlanError>
    requires i < |ordered|
  {
    if !IsOut(semver, ordered, registries, tag, k, i) then Classify(semver, ordered[i], registries, tag)
    else if tag != LATEST && registries[ordered[i].Name()].Tag(LATEST) != ordered[i].version then Ok(Stages)
    else Ok(Skips)
  }

  /** Only what is out changes class. */
  lemma {:induction false} ClassAfter(semver: Semver, ordered: seq<Package>, registries: Registries, tag: string,
                                      k: nat, i: nat)
    requires Sane(semver, ordered) && k <= |Pick(semver, ordered, registries, tag, Publishes)| && i < |ordered|
    ensures Classify(semver, ordered[i], After(semver, ordered, registries, tag, k), tag)
            == NewClass(semver, ordered, registries, tag, k, i)
  {
    hide After, Before, Published, ClassifyIn, LawfulAt, MeetsPolicy;
    if ordered[i].Name() in registries {
      OnlyReleasesChange(semver, ordered, registries, tag, k, i);
      if IsOut(semver, ordered, registries, tag, k, i) {
        ClassOncePublished(semver, ordered[i], registries[ordered[i].Name()], tag, ByName(ordered));
      }
    }
  }

  // ------------------------------------------------------------- planning again

  function Rest<T>(s: seq<T>, k: nat): seq<T> {
    if |s| <= k then [] else s[k..]
  }

  lemma RestSnoc<T>(s: seq<T>, x: T, k: nat)
    ensures Rest(s + [x], k) == if |s| < k then Rest(s, k) else Rest(s, k) + [x]
  {
  }

  lemma RestNone<T>(k: nat)
    ensures Rest<T>([], k) == []
  {
  }

  lemma {:induction false} StillPublishes(semver: Semver, ordered: seq<Package>, registries: Registries, tag: string,
                                          k: nat, i: nat)
    requires Sane(semver, ordered) && k <= |Pick(semver, ordered, registries, tag, Publishes)| && i < |ordered|
    ensures InClass(semver, ordered[i], After(semver, ordered, registries, tag, k), tag, Publishes) <==>
            InClass(semver, ordered[i], registries, tag, Publishes)
            && k <= |Pick(semver, ordered[..i], registries, tag, Publishes)|
  {
    hide After, Classify, Pick, Sane;
    ClassAfter(semver, ordered, registries, tag, k, i);
  }

  /** The rest of the plan is what is left to publish. */
  lemma {:induction false} PickAfter(semver: Semver, ordered: seq<Package>, registries: Registries, tag: string, k: nat,
                                     i: nat)
    requires Sane(semver, ordered) && k <= |Pick(semver, ordered, registries, tag, Publishes)| && i <= |ordered|
    ensures Pick(semver, ordered[..i], After(semver, ordered, registries, tag, k), tag, Publishes)
            == Rest(Pick(semver, ordered[..i], registries, tag, Publishes), k)
    decreases i
  {
    var after := After(semver, ordered, registries, tag, k);
    hide After, Classify, Pick, Sane, Rest, InClass;
    if i == 0 {
      assert Rest<Release>([], k) == [] by { RestNone<Release>(k); }
    } else {
      PickAfter(semver, ordered, registries, tag, k, i - 1);
      StillPublishes(semver, ordered, registries, tag, k, i - 1);
      PickNext(semver, ordered, registries, tag, Publishes, i - 1);
      PickNext(semver, ordered, after, tag, Publishes, i - 1);
      if InClass(semver, ordered[i - 1], registries, tag, Publishes) {
        RestSnoc(Pick(semver, ordered[..i - 1], registries, tag, Publishes), ReleaseOf(ordered[i - 1]), k);
      }
    }
  }

  lemma {:induction false} StillDefers(semver: Semver, ordered: seq<Package>, registries: Registries, tag: string,
                                       k: nat, i: nat)
    requires Sane(semver, ordered) && k <= |Pick(semver, ordered, registries, tag, Publishes)| && i < |ordered|
    ensures InClass(semver, ordered[i], After(semver, ordered, registries, tag, k), tag, Defers) <==>
            InClass(semver, ordered[i], registries, tag, Defers)
  {
    hide After, Classify, Pick, Sane, Before;
    ClassAfter(semver, ordered, registries, tag, k, i);
  }

  /** The same packages in a class give the same releases. */
  lemma {:induction false} PickSame(semver: Semver, ordered: seq<Package>, before: Registries, after: Registries,
                                    tag: string, class_: Class, i: nat)
    requires i <= |ordered|
    requires forall j | 0 <= j < i ::
               InClass(semver, ordered[j], before, tag, class_) == InClass(semver, ordered[j], after, tag, class_)
    ensures Pick(semver, ordered[..i], before, tag, class_) == Pick(semver, ordered[..i], after, tag, class_)
    decreases i
  {
    hide Classify, InClass, Pick;
    if i > 0 {
      PickSame(semver, ordered, before, after, tag, class_, i - 1);
      PickNext(semver, ordered, before, tag, class_, i - 1);
      PickNext(semver, ordered, after, tag, class_, i - 1);
    }
  }

  /** The packages deferred stay deferred. */
  lemma {:induction false} DeferredAfter(semver: Semver, ordered: seq<Package>, registries: Registries, tag: string,
                                         k: nat)
    requires Sane(semver, ordered) && k <= |Pick(semver, ordered, registries, tag, Publishes)|
    ensures Pick(semver, ordered, After(semver, ordered, registries, tag, k), tag, Defers)
            == Pick(semver, ordered, registries, tag, Defers)
  {
    var after := After(semver, ordered, registries, tag, k);
    hide After, Classify, Pick, Sane, InClass;
    forall j | 0 <= j < |ordered|
      ensures InClass(semver, ordered[j], registries, tag, Defers) == InClass(semver, ordered[j], after, tag, Defers)
    {
      StillDefers(semver, ordered, registries, tag, k, j);
    }
    PickSame(semver, ordered, registries, after, tag, Defers, |ordered|);
    assert ordered[..|ordered|] == ordered;
  }

  /** A shipped dependency on a workspace package whose name is not an internal one. */
  predicate Foreign(p: Package, byName: map<string, Package>) {
    exists d :: d in p.ShippedNames() && d in byName && !IsInternal(d)
  }

  lemma PackedNames(p: Package, byName: map<string, Package>)
    ensures Packed(p, byName).Names() == p.ShippedNames()
  {
  }

  lemma PackedField(p: Package, byName: map<string, Package>, field: Field)
    ensures Packed(p, byName).Shipped(field) == ResolveAll(byName, p.Shipped(field))
  {
  }

  /** A package packed today is compatible with today's workspace on every edge the policy knows. */
  lemma PackedEdge(semver: Semver, p: Package, byName: map<string, Package>, d: string)
    requires MeetsPolicy(p) && d in InternalDependencies(p) && d in byName && !Blank(byName[d].version)
    requires LawfulAt(semver, byName[d].version.value)
    ensures EdgeCompatible(semver, p, Packed(p, byName), byName, d)
  {
    var version := byName[d].version.value;
    assert LocalEntry(p, d) == Some(ExpectedWorkspaceDependency(p, d));
    var field := ExpectedWorkspaceDependency(p, d).0;
    PackedField(p, byName, Dependencies);
    PackedField(p, byName, PeerDependencies);
    PackedField(p, byName, OptionalDependencies);
    hide ExpectedWorkspaceDependency, Packed, IsInternal;
    assert version != "";
    assert PublishedEntry(Packed(p, byName), d) == Some((field, Resolve(byName, d, p.Shipped(field)[d])));
  }

  /** Today's packing passes the check against today's workspace, unless it names a foreign sibling. */
  lemma PackedCompatible(semver: Semver, p: Package, registries: Registries, byName: map<string, Package>)
    requires MeetsPolicy(p) && p.version.Some? && !Blank(p.version) && InRegistry(registries, p.Name(), p.version.value)
    requires registries[p.Name()].versions[p.version.value] == Packed(p, byName)
    requires forall d | d in InternalDependencies(p) ::
               d in byName && !Blank(byName[d].version) && LawfulAt(semver, byName[d].version.value)
    ensures PackageCompatible(semver, p, registries, byName) <==> !Foreign(p, byName)
  {
    var m := Packed(p, byName);
    PackedNames(p, byName);
    hide Packed, LawfulAt, MeetsPolicy;
    assert p.version.value != "";
    forall d | d in InternalDependencies(p) ensures EdgeCompatible(semver, p, m, byName, d) {
      PackedEdge(semver, p, byName, d);
    }
    if d :| d in p.ShippedNames() && d in byName && !IsInternal(d) {
      assert d in CheckedEdges(p, m, byName) && LocalEntry(p, d).None?;
    }
  }

  /** What a planned release needs is known, and its dependencies are lawful versions. */
  lemma {:induction false} DependenciesKnown(semver: Semver, ordered: seq<Package>, registries: Registries,
                                             tag: string, i: nat, d: string)
    requires Sane(semver, ordered) && PlanOf(semver, ordered, registries, tag).Ok?
    requires i < |ordered| && InClass(semver, ordered[i], registries, tag, Publishes) && d in InternalDependencies(ordered[i])
    ensures d in ByName(ordered) && !Blank(ByName(ordered)[d].version)
    ensures LawfulAt(semver, ByName(ordered)[d].version.value)
  {
    PlanExists(semver, ordered, registries, tag);
    var publish := Pick(semver, ordered, registries, tag, Publishes);
    hide PlanOf, Classified, Compatible, Classify, ByName, LawfulAt, MeetsPolicy, InternalDependencies, DistinctNames;
    PickPlace(semver, ordered, registries, tag, Publishes, i);
    hide Pick;
    var q := Before(semver, ordered, registries, tag, Publishes, i);
    assert ReleaseReady(registries, ByName(ordered), publish[..q], publish[q]);
    assert DependencyReady(registries, ByName(ordered), publish[..q], d);
  }

  /** Who is compatible after a stopped run: what is out, unless it names a foreign sibling; others as before. */
  lemma {:induction false} CompatibleAfter(semver: Semver, ordered: seq<Package>, registries: Registries, tag: string,
                                           k: nat, i: nat)
    requires Sane(semver, ordered) && PlanOf(semver, ordered, registries, tag).Ok?
    requires k <= |Pick(semver, ordered, registries, tag, Publishes)| && i < |ordered|
    ensures PackageCompatible(semver, ordered[i], After(semver, ordered, registries, tag, k), ByName(ordered)) <==>
            !(IsOut(semver, ordered, registries, tag, k, i) && Foreign(ordered[i], ByName(ordered)))
  {
    PlanExists(semver, ordered, registries, tag);
    ClassifyOk(semver, ordered[i], registries, tag);
    assert Classify(semver, ordered[i], registries, tag).Ok?;
    assert PackageCompatible(semver, ordered[i], registries, ByName(ordered));
    OnlyReleasesChange(semver, ordered, registries, tag, k, i);
    var after := After(semver, ordered, registries, tag, k);
    if IsOut(semver, ordered, registries, tag, k, i) {
      assert !Blank(ordered[i].version);
      hide PlanOf, Pick, Classify, Classified, Compatible, Ready, After, Before, ByName, Foreign, LawfulAt, Packed;
      hide PackageCompatible, MeetsPolicy, DistinctNames, Blank;
      forall d | d in InternalDependencies(ordered[i])
        ensures d in ByName(ordered) && !Blank(ByName(ordered)[d].version)
                && LawfulAt(semver, ByName(ordered)[d].version.value)
      {
        DependenciesKnown(semver, ordered, registries, tag, i, d);
      }
      PackedCompatible(semver, ordered[i], after, ByName(ordered));
    }
  }

  /** A version that is out, or was there already, is on the registry after a stopped run. */
  lemma {:induction false} VersionsStay(semver: Semver, ordered: seq<Package>, registries: Registries, tag: string,
                                        k: nat, i: nat)
    requires DistinctNames(ordered) && k <= |Pick(semver, ordered, registries, tag, Publishes)|
    requires i < |ordered| && ordered[i].version.Some? && ordered[i].Name() in registries
    ensures InRegistry(After(semver, ordered, registries, tag, k), ordered[i].Name(), ordered[i].version.value) <==>
            InRegistry(registries, ordered[i].Name(), ordered[i].version.value)
            || IsOut(semver, ordered, registries, tag, k, i)
  {
    OnlyReleasesChange(semver, ordered, registries, tag, k, i);
    hide After, Pick, Classify, Before, ByName, Packed, InClass;
  }

  lemma {:induction false} ReleasedUnderName(semver: Semver, ordered: seq<Package>, registries: Registries,
                                             tag: string, k: nat, q: nat, i: nat)
    requires DistinctNames(ordered) && q < k <= |Pick(semver, ordered, registries, tag, Publishes)| && i < |ordered|
    requires Pick(semver, ordered, registries, tag, Publishes)[q].name == ordered[i].Name()
    ensures IsOut(semver, ordered, registries, tag, k, i) && ordered[i].Name() in registries
  {
    hide Pick, InClass, Before;
    var at := PlannedOrigin(semver, ordered, registries, tag, q);
    assert at == i;
  }

  /** What was ready stays ready when the first `k` releases are on the registry instead of ahead in the plan. */
  lemma {:induction false} DependencyStaysReady(semver: Semver, ordered: seq<Package>, registries: Registries,
                                                tag: string, k: nat, j: nat,
                                                d: string)
    requires Sane(semver, ordered) && k + j <= |Pick(semver, ordered, registries, tag, Publishes)|
    requires var publish := Pick(semver, ordered, registries, tag, Publishes);
             DependencyReady(registries, ByName(ordered), publish[..k + j], d)
    ensures var publish := Pick(semver, ordered, registries, tag, Publishes);
            DependencyReady(After(semver, ordered, registries, tag, k), ByName(ordered), publish[k..][..j], d)
  {
    var publish := Pick(semver, ordered, registries, tag, Publishes);
    var version := ByName(ordered)[d].version.value;
    var i: nat :| i < |ordered| && ordered[i] == ByName(ordered)[d];
    hide After, ByName, Pick, Classify, LawfulAt, MeetsPolicy, Blank, IsOut, DistinctNames;
    if InRegistry(registries, d, version) {
      VersionsStay(semver, ordered, registries, tag, k, i);
    } else {
      var e: nat :| e < k + j && publish[..k + j][e].name == d && publish[..k + j][e].version == version;
      if e < k {
        ReleasedUnderName(semver, ordered, registries, tag, k, e, i);
        VersionsStay(semver, ordered, registries, tag, k, i);
      } else {
        assert publish[k..][..j][e - k] == publish[e];
      }
    }
  }

  lemma {:induction false} ReadyAfter(semver: Semver, ordered: seq<Package>, registries: Registries, tag: string,
                                      k: nat)
    requires Sane(semver, ordered) && PlanOf(semver, ordered, registries, tag).Ok?
    requires k <= |Pick(semver, ordered, registries, tag, Publishes)|
    ensures Ready(After(semver, ordered, registries, tag, k), ByName(ordered),
                  Pick(semver, ordered, registries, tag, Publishes)[k..])
  {
    PlanExists(semver, ordered, registries, tag);
    var publish, after := Pick(semver, ordered, registries, tag, Publishes), After(semver, ordered, registries, tag, k);
    hide PlanOf, Pick, Classified, Compatible, After, Sane, DependencyReady, ByName, InternalDependencies;
    forall j: nat | j < |publish[k..]|
      ensures ReleaseReady(after, ByName(ordered), publish[k..][..j], publish[k..][j])
    {
      assert ReleaseReady(registries, ByName(ordered), publish[..k + j], publish[k + j]);
      forall d | d in InternalDependencies(publish[k + j].packageInfo)
        ensures DependencyReady(after, ByName(ordered), publish[k..][..j], d)
      {
        DependencyStaysReady(semver, ordered, registries, tag, k, j, d);
      }
    }
  }

  /** One of the first `k` releases names a workspace package that the policy does not look at. */
  predicate ForeignIsOut(plan: Plan, byName: map<string, Package>, k: nat)
  {
    exists j | 0 <= j < k && j < |plan.publish| :: Foreign(plan.publish[j].packageInfo, byName)
  }

  lemma {:induction false} SomeForeignOut(semver: Semver, ordered: seq<Package>, registries: Registries, tag: string,
                                          k: nat)
    requires PlanOf(semver, ordered, registries, tag).Ok?
    requires k <= |Pick(semver, ordered, registries, tag, Publishes)|
    ensures ForeignIsOut(PlanOf(semver, ordered, registries, tag).value, ByName(ordered), k) <==>
            exists i | 0 <= i < |ordered| ::
              IsOut(semver, ordered, registries, tag, k, i) && Foreign(ordered[i], ByName(ordered))
  {
    var plan := PlanOf(semver, ordered, registries, tag).value;
    assert plan.publish == Pick(semver, ordered, registries, tag, Publishes);
    hide PlanOf, Pick, Foreign, Classify, InClass, Before, ByName;
    if j: nat :| j < k && Foreign(plan.publish[j].packageInfo, ByName(ordered)) {
      var at := PlannedOrigin(semver, ordered, registries, tag, j);
      assert IsOut(semver, ordered, registries, tag, k, at) && Foreign(ordered[at], ByName(ordered));
    }
    if i :| 0 <= i < |ordered| && IsOut(semver, ordered, registries, tag, k, i) && Foreign(ordered[i], ByName(ordered)) {
      var q := PlannedPlace(semver, ordered, registries, tag, k, i);
      assert Foreign(plan.publish[q].packageInfo, ByName(ordered));
    }
  }

  /** Stop a run anywhere: planning again gives exactly the rest of the plan, and the same deferrals. This holds
      exactly when nothing already published names a workspace package under a name that is not internal. */
  lemma {:induction false} StoppedRunResumes(semver: Semver, ordered: seq<Package>, registries: Registries,
                                             tag: string, k: nat)
    requires Sane(semver, ordered) && PlanOf(semver, ordered, registries, tag).Ok?
    requires k <= |Pick(semver, ordered, registries, tag, Publishes)|
    ensures var plan := PlanOf(semver, ordered, registries, tag).value;
            var again := PlanOf(semver, ordered, After(semver, ordered, registries, tag, k), tag);
            (again.Ok? <==> !ForeignIsOut(plan, ByName(ordered), k))
            && (again.Ok? ==>
                  again.value.publish == Rest(plan.publish, k)
                  && again.value.deferredInitial == plan.deferredInitial
                  && again.value.alreadyPublished == plan.alreadyPublished + k)
  {
    var after := After(semver, ordered, registries, tag, k);
    PlanParts(semver, ordered, registries, tag);
    PlanParts(semver, ordered, after, tag);
    hide PlanOf, After, Pick, ByName, ForeignIsOut, Sane, Classified, Ready, Compatible;
    AllCompatibleAfter(semver, ordered, registries, tag, k);
    PlanExists(semver, ordered, registries, tag);
    PlanExists(semver, ordered, after, tag);
    DeferredAfter(semver, ordered, registries, tag, k);
    RemainingPicks(semver, ordered, registries, tag, k);
    ReadyAfter(semver, ordered, registries, tag, k);
    ClassifiedAfter(semver, ordered, registries, tag, k);
  }

  lemma {:induction false} PlanParts(semver: Semver, ordered: seq<Package>, registries: Registries, tag: string)
    ensures var plan := PlanOf(semver, ordered, registries, tag);
            plan.Ok? ==> plan.value.publish == Pick(semver, ordered, registries, tag, Publishes)
                         && plan.value.deferredInitial == Pick(semver, ordered, registries, tag, Defers)
                         && plan.value.alreadyPublished
                            == |ordered| - |plan.value.publish| - |plan.value.deferredInitial|
  {
    hide Pick, FirstError, FirstIncompatible, FirstUnavailable, ByName;
  }

  lemma {:induction false} AllCompatibleAfter(semver: Semver, ordered: seq<Package>, registries: Registries,
                                              tag: string, k: nat)
    requires Sane(semver, ordered) && PlanOf(semver, ordered, registries, tag).Ok?
    requires k <= |Pick(semver, ordered, registries, tag, Publishes)|
    ensures Compatible(semver, ordered, After(semver, ordered, registries, tag, k), ByName(ordered)) <==>
            !ForeignIsOut(PlanOf(semver, ordered, registries, tag).value, ByName(ordered), k)
  {
    var after := After(semver, ordered, registries, tag, k);
    SomeForeignOut(semver, ordered, registries, tag, k);
    hide After, Pick, Classify, ByName, ForeignIsOut, Foreign, IsOut, Sane, PackageCompatible, PlanOf;
    forall i | 0 <= i < |ordered|
      ensures PackageCompatible(semver, ordered[i], after, ByName(ordered)) <==>
              !(IsOut(semver, ordered, registries, tag, k, i) && Foreign(ordered[i], ByName(ordered)))
    {
      CompatibleAfter(semver, ordered, registries, tag, k, i);
    }
  }

  lemma {:induction false} RemainingPicks(semver: Semver, ordered: seq<Package>, registries: Registries, tag: string,
                                          k: nat)
    requires Sane(semver, ordered) && k <= |Pick(semver, ordered, registries, tag, Publishes)|
    ensures Pick(semver, ordered, After(semver, ordered, registries, tag, k), tag, Publishes)
            == Pick(semver, ordered, registries, tag, Publishes)[k..]
  {
    hide Pick, After, Sane;
    PickAfter(semver, ordered, registries, tag, k, |ordered|);
    assert ordered[..|ordered|] == ordered;
  }

  lemma {:induction false} ClassifiedAfter(semver: Semver, ordered: seq<Package>, registries: Registries, tag: string,
                                           k: nat)
    requires Sane(semver, ordered) && k <= |Pick(semver, ordered, registries, tag, Publishes)|
    requires Classified(semver, ordered, registries, tag)
    ensures Classified(semver, ordered, After(semver, ordered, registries, tag, k), tag)
  {
    hide Pick, After, DistinctNames, MeetsPolicy, LawfulAt, Classify, InClass, Before;
    forall i | 0 <= i < |ordered|
      ensures Classify(semver, ordered[i], After(semver, ordered, registries, tag, k), tag).Ok?
    {
      ClassAfter(semver, ordered, registries, tag, k, i);
    }
  }

  /** What a stopped run newly staged: what it put under a tag other than `latest` while `latest` was elsewhere. */
  lemma {:induction false} StagedAfter(semver: Semver, ordered: seq<Package>, registries: Registries, tag: string,
                                       k: nat, i: nat)
    requires Sane(semver, ordered) && k <= |Pick(semver, ordered, registries, tag, Publishes)| && i < |ordered|
    ensures InClass(semver, ordered[i], After(semver, ordered, registries, tag, k), tag, Stages) <==>
            InClass(semver, ordered[i], registries, tag, Stages)
            || (IsOut(semver, ordered, registries, tag, k, i) && tag != LATEST
                && registries[ordered[i].Name()].Tag(LATEST) != ordered[i].version)
  {
    hide After, Classify, Pick, Before;
    ClassAfter(semver, ordered, registries, tag, k, i);
  }

  // ------------------------------------------------------------ a sound registry

  /** A release goes out only once all it needs is on the registry, and it is still there however far the run goes. */
  lemma {:induction false} EveryReleaseResolves(semver: Semver, ordered: seq<Package>, registries: Registries,
                                                tag: string,
                                                j: nat, k: nat, d: string)
    requires Sane(semver, ordered) && PlanOf(semver, ordered, registries, tag).Ok?
    requires var publish := Pick(semver, ordered, registries, tag, Publishes);
             j < |publish| && j <= k <= |publish| && d in InternalDependencies(publish[j].packageInfo)
    ensures d in ByName(ordered) && !Blank(ByName(ordered)[d].version)
    ensures InRegistry(After(semver, ordered, registries, tag, k), d, ByName(ordered)[d].version.value)
  {
    var publish := Pick(semver, ordered, registries, tag, Publishes);
    ReadyAfter(semver, ordered, registries, tag, j);
    var now := After(semver, ordered, registries, tag, j);
    assert ReleaseReady(now, ByName(ordered), publish[j..][..0], publish[j..][0]);
    assert DependencyReady(now, ByName(ordered), publish[j..][..0], d);
    var i :| 0 <= i < |ordered| && ordered[i] == ByName(ordered)[d];
    hide After, ByName, PlanOf, Pick, Classify, InClass, Before, InternalDependencies, LawfulAt, MeetsPolicy;
    VersionsStay(semver, ordered, registries, tag, j, i);
    VersionsStay(semver, ordered, registries, tag, k, i);
  }

  /** Tags only move forward, and no published version changes. */
  predicate MovesForward(semver: Semver, before: Registry, after: Registry) {
    (forall tag | tag in before.tags ::
       tag in after.tags
       && (after.tags[tag] == before.tags[tag] || NotBehind(semver, after.tags[tag], before.Tag(tag))))
    && forall version | version in before.versions ::
         version in after.versions && after.versions[version] == before.versions[version]
  }

  lemma PublishedMovesForward(semver: Semver, p: Package, registry: Registry, tag: string, byName: map<string, Package>)
    requires p.version.Some? && ClassifyIn(semver, p, registry, tag) == Ok(Publishes)
    ensures MovesForward(semver, registry, Published(registry, ReleaseOf(p), tag, byName))
  {
    hide Packed;
  }

  /** Up to any point of the run, no tag of any package has moved backwards. */
  lemma {:induction false} NothingMovesBackwards(semver: Semver, ordered: seq<Package>, registries: Registries,
                                                 tag: string, k: nat, i: nat)
    requires DistinctNames(ordered) && k <= |Pick(semver, ordered, registries, tag, Publishes)|
    requires i < |ordered| && ordered[i].Name() in registries
    ensures MovesForward(semver, registries[ordered[i].Name()],
                         After(semver, ordered, registries, tag, k)[ordered[i].Name()])
  {
    OnlyReleasesChange(semver, ordered, registries, tag, k, i);
    hide After, ByName, Pick, Before, Published, ClassifyIn, MovesForward;
    if IsOut(semver, ordered, registries, tag, k, i) {
      PublishedMovesForward(semver, ordered[i], registries[ordered[i].Name()], tag, ByName(ordered));
    } else {
      StandingStill(semver, registries[ordered[i].Name()]);
    }
  }

  lemma StandingStill(semver: Semver, registry: Registry)
    ensures MovesForward(semver, registry, registry)
  {
  }

  // --------------------------------------------------- when dependencies are missing

  /** Every workspace dependency comes earlier. */
  predicate DependenciesFirst(ordered: seq<Package>) {
    forall i, d | 0 <= i < |ordered| && d in InternalDependencies(ordered[i]) && d in ByName(ordered) ::
      exists j :: 0 <= j < i && ordered[j].Name() == d
  }

  /** The order the release train computes puts dependencies first. */
  lemma {:induction false} OrderPutsDependenciesFirst(packages: seq<Package>, ordered: seq<Package>)
    requires var g := GraphOf(ByName(packages));
             !Cyclic(g) && Lists(ByName(packages), ordered, Order(g))
    ensures DistinctNames(ordered) && ByName(ordered) == ByName(packages) && DependenciesFirst(ordered)
  {
    var byName, g := ByName(packages), GraphOf(ByName(packages));
    GraphIsClosed(byName);
    OrderIsTopological(g);
    hide *;
    ByNameOfListed(byName, ordered, Order(g));
    DependenciesListedFirst(byName, ordered, Order(g));
  }

  lemma {:induction false} DependenciesListedFirst(byName: map<string, Package>, ordered: seq<Package>,
                                                   names: seq<string>)
    requires Lists(byName, ordered, names) && ByName(ordered) == byName
    requires forall name | name in byName :: byName[name].Name() == name
    requires forall j | 0 <= j < |names| && names[j] in GraphOf(byName) ::
               forall d | d in GraphOf(byName)[names[j]] :: d in names[..j]
    ensures DependenciesFirst(ordered)
  {
    hide InternalDependencies, ByName;
    forall i: nat, d | i < |ordered| && d in InternalDependencies(ordered[i]) && d in byName
      ensures exists j :: 0 <= j < i && ordered[j].Name() == d
    {
      ListedDependency(byName, ordered, names, i, d);
    }
  }

  lemma ListedDependency(byName: map<string, Package>, ordered: seq<Package>, names: seq<string>, i: nat, d: string)
    requires Lists(byName, ordered, names) && i < |ordered| && d in InternalDependencies(ordered[i]) && d in byName
    requires forall name | name in byName :: byName[name].Name() == name
    requires forall d' | d' in GraphOf(byName)[names[i]] :: d' in names[..i]
    ensures exists j :: 0 <= j < i && ordered[j].Name() == d
  {
    hide InternalDependencies;
    assert d in GraphOf(byName)[names[i]];
    var j: nat :| j < i && names[..i][j] == d;
    assert ordered[j].Name() == d;
  }

  lemma ListedNames(byName: map<string, Package>, ordered: seq<Package>, names: seq<string>)
    requires Lists(byName, ordered, names) && Distinct(names)
    requires forall name | name in byName :: byName[name].Name() == name
    ensures DistinctNames(ordered) && forall i | 0 <= i < |names| :: ordered[i].Name() == names[i]
  {
  }

  lemma {:induction false} ListedLookup(byName: map<string, Package>, ordered: seq<Package>, names: seq<string>,
                                        name: string)
    requires Lists(byName, ordered, names) && DistinctNames(ordered)
    requires forall i | 0 <= i < |names| :: ordered[i].Name() == names[i]
    ensures name in names <==> name in ByName(ordered)
    ensures name in names ==> name in byName && ByName(ordered)[name] == byName[name]
  {
    if name in names {
      var i: nat :| i < |names| && names[i] == name;
      ByNameFinds(ordered, i);
    }
  }

  lemma MapsAgree(a: map<string, Package>, b: map<string, Package>)
    requires a.Keys == b.Keys && forall name | name in a :: a[name] == b[name]
    ensures a == b
  {
  }

  lemma {:induction false} ByNameOfListed(byName: map<string, Package>, ordered: seq<Package>, names: seq<string>)
    requires Lists(byName, ordered, names) && Distinct(names)
    requires forall x :: x in names <==> x in byName
    requires forall name | name in byName :: byName[name].Name() == name
    ensures DistinctNames(ordered) && ByName(ordered) == byName
  {
    ListedNames(byName, ordered, names);
    forall name
      ensures name in byName <==> name in ByName(ordered)
      ensures name in byName ==> ByName(ordered)[name] == byName[name]
    {
      ListedLookup(byName, ordered, names, name);
    }
    hide *;
    MapsAgree(ByName(ordered), byName);
  }

  /** In such an order, a plan lacks a dependency only when one is deferred or is no workspace package. */
  lemma {:induction false} MissingExactlyWhenDeferred(semver: Semver, ordered: seq<Package>, registries: Registries,
                                                      tag: string)
    requires DistinctNames(ordered) && DependenciesFirst(ordered) && Classified(semver, ordered, registries, tag)
    ensures var publish := Pick(semver, ordered, registries, tag, Publishes);
            Ready(registries, ByName(ordered), publish) <==>
            forall q, d | 0 <= q < |publish| && d in InternalDependencies(publish[q].packageInfo) ::
              d in ByName(ordered) && Classify(semver, ByName(ordered)[d], registries, tag) != Ok(Defers)
  {
    var publish := Pick(semver, ordered, registries, tag, Publishes);
    forall q: nat, d | q < |publish| && d in InternalDependencies(publish[q].packageInfo)
      ensures DependencyReady(registries, ByName(ordered), publish[..q], d) <==>
              d in ByName(ordered) && Classify(semver, ByName(ordered)[d], registries, tag) != Ok(Defers)
    {
      if d in ByName(ordered) {
        ReadyUnlessDeferred(semver, ordered, registries, tag, q, d);
      }
    }
    hide DependencyReady, ByName, InternalDependencies, Classify, Pick, DistinctNames, DependenciesFirst, Classified;
    assert Ready(registries, ByName(ordered), publish) <==>
           forall q | 0 <= q < |publish| :: ReleaseReady(registries, ByName(ordered), publish[..q], publish[q]);
  }

  lemma {:induction false} ReadyUnlessDeferred(semver: Semver, ordered: seq<Package>, registries: Registries,
                                               tag: string, q: nat, d: string)
    requires DistinctNames(ordered) && DependenciesFirst(ordered) && Classified(semver, ordered, registries, tag)
    requires q < |Pick(semver, ordered, registries, tag, Publishes)| && d in ByName(ordered)
    requires d in InternalDependencies(Pick(semver, ordered, registries, tag, Publishes)[q].packageInfo)
    ensures DependencyReady(registries, ByName(ordered), Pick(semver, ordered, registries, tag, Publishes)[..q], d) <==>
            Classify(semver, ByName(ordered)[d], registries, tag) != Ok(Defers)
  {
    var i := PlannedOrigin(semver, ordered, registries, tag, q);
    var j: nat :| j < i && ordered[j].Name() == d;
    ByNameFinds(ordered, j);
    assert Classify(semver, ordered[j], registries, tag).Ok?;
    ClassTells(semver, ordered[j], registries, tag);
    hide ByName, DependenciesFirst, Classified, InternalDependencies, Pick, Blank, DistinctNames, Classify;
    if InClass(semver, ordered[j], registries, tag, Publishes) {
      PlannedEarlier(semver, ordered, registries, tag, q, i, j);
    } else {
      NeverPlanned(semver, ordered, registries, tag, q, j);
    }
    hide Before, InClass;
  }

  /** The class says whether the version is on the registry. */
  lemma ClassTells(semver: Semver, p: Package, registries: Registries, tag: string)
    requires Classify(semver, p, registries, tag).Ok?
    ensures !Blank(p.version)
    ensures InRegistry(registries, p.Name(), p.version.value) <==>
            Classify(semver, p, registries, tag) != Ok(Publishes) && Classify(semver, p, registries, tag) != Ok(Defers)
  {
  }

  lemma BeforeGrows(semver: Semver, ordered: seq<Package>, registries: Registries, tag: string, j: nat, i: nat)
    requires j < i <= |ordered| && InClass(semver, ordered[j], registries, tag, Publishes)
    ensures Before(semver, ordered, registries, tag, Publishes, j) < Before(semver, ordered, registries, tag, Publishes, i)
  {
    hide Pick, Classify, InClass;
    PickNext(semver, ordered, registries, tag, Publishes, j);
    PickPrefix(semver, ordered, registries, tag, Publishes, j + 1, i);
  }

  /** A package to be published before package `i` is an earlier release. */
  lemma {:induction false} PlannedEarlier(semver: Semver, ordered: seq<Package>, registries: Registries, tag: string,
                                          q: nat, i: nat, j: nat)
    requires j < i < |ordered| && InClass(semver, ordered[j], registries, tag, Publishes)
    requires q <= |Pick(semver, ordered, registries, tag, Publishes)| && q == Before(semver, ordered, registries, tag, Publishes, i)
    ensures exists e :: 0 <= e < q && Pick(semver, ordered, registries, tag, Publishes)[..q][e] == ReleaseOf(ordered[j])
  {
    var publish, e := Pick(semver, ordered, registries, tag, Publishes), Before(semver, ordered, registries, tag, Publishes, j);
    hide Pick, Classify, InClass, Before;
    PickPlace(semver, ordered, registries, tag, Publishes, j);
    BeforeGrows(semver, ordered, registries, tag, j, i);
    assert publish[..q][e] == publish[e];
  }

  /** A package that is not to be published is no release at all. */
  lemma {:induction false} NeverPlanned(semver: Semver, ordered: seq<Package>, registries: Registries, tag: string,
                                        q: nat, j: nat)
    requires DistinctNames(ordered) && j < |ordered| && !InClass(semver, ordered[j], registries, tag, Publishes)
    requires q <= |Pick(semver, ordered, registries, tag, Publishes)|
    ensures forall e | 0 <= e < q :: Pick(semver, ordered, registries, tag, Publishes)[..q][e].name != ordered[j].Name()
  {
    var publish := Pick(semver, ordered, registries, tag, Publishes);
    hide Pick, InClass, Before;
    forall e: nat | e < q ensures publish[..q][e].name != ordered[j].Name() {
      var at := PlannedOrigin(semver, ordered, registries, tag, e);
    }
  }

  // -------------------------------------------------------- a run that cannot resume

  const LENIENT := Semver((a, b) => 0, (version, range) => true)
  const UNPUBLISHED := Registry(map[], map[])
  const LIB := Package(Some("lib"), "packages/lib", Some("1.0.0"), map[], map[], map[], map[])
  const APP := Package(Some("@sixb/app"), "packages/app", Some("1.0.0"), map["lib" := "^1.0.0"], map[], map[], map[])
  const EMPTY_REGISTRIES: Registries := map["lib" := UNPUBLISHED, "@sixb/app" := UNPUBLISHED]

  lemma NewPublishes(p: Package)
    requires p.version == Some("1.0.0") && p.Name() in EMPTY_REGISTRIES
    ensures InClass(LENIENT, p, EMPTY_REGISTRIES, LATEST, Publishes)
  {
    assert "1.0.0"[0] == '1' && '1' in "1.0.0";
    assert EMPTY_REGISTRIES[p.Name()] == UNPUBLISHED;
    assert |UNPUBLISHED.versions| == 0;
  }

  lemma ExamplePicks()
    ensures Pick(LENIENT, [LIB, APP], EMPTY_REGISTRIES, LATEST, Publishes) == [ReleaseOf(LIB), ReleaseOf(APP)]
    ensures InClass(LENIENT, LIB, EMPTY_REGISTRIES, LATEST, Publishes)
    ensures InClass(LENIENT, APP, EMPTY_REGISTRIES, LATEST, Publishes)
  {
    NewPublishes(LIB);
    NewPublishes(APP);
    hide Pick, InClass;
    PickNext(LENIENT, [LIB, APP], EMPTY_REGISTRIES, LATEST, Publishes, 0);
    PickNext(LENIENT, [LIB, APP], EMPTY_REGISTRIES, LATEST, Publishes, 1);
    assert [LIB, APP][..2] == [LIB, APP] && [LIB, APP][..1] == [LIB] && [LIB, APP][..0] == [];
  }

  lemma ExamplePlan()
    ensures Sane(LENIENT, [LIB, APP]) && PlanOf(LENIENT, [LIB, APP], EMPTY_REGISTRIES, LATEST).Ok?
  {
    ExamplePicks();
    PlanExists(LENIENT, [LIB, APP], EMPTY_REGISTRIES, LATEST);
    hide Pick, Classify, ByName, PlanOf;
    assert InternalDependencies(LIB) == {} && InternalDependencies(APP) == {} by {
      assert "lib"[0] == 'l' && !IsInternal("lib");
    }
  }

  /** A package that names a workspace sibling outside the internal names publishes, and then no plan succeeds. */
  lemma ForeignSiblingBreaksResume()
    ensures Sane(LENIENT, [LIB, APP]) && PlanOf(LENIENT, [LIB, APP], EMPTY_REGISTRIES, LATEST).Ok?
    ensures |Pick(LENIENT, [LIB, APP], EMPTY_REGISTRIES, LATEST, Publishes)| == 2
    ensures PlanOf(LENIENT, [LIB, APP], After(LENIENT, [LIB, APP], EMPTY_REGISTRIES, LATEST, 2), LATEST).Err?
  {
    ExamplePicks();
    ExamplePlan();
    PlanParts(LENIENT, [LIB, APP], EMPTY_REGISTRIES, LATEST);
    hide PlanOf, Pick, After, Sane, Classify;
    var plan := PlanOf(LENIENT, [LIB, APP], EMPTY_REGISTRIES, LATEST).value;
    assert LIB in [LIB, APP] && "lib" in ByName([LIB, APP]) && "lib" in APP.ShippedNames();
    assert "lib"[0] == 'l' && !IsInternal("lib");
    assert Foreign(plan.publish[1].packageInfo, ByName([LIB, APP]));
    StoppedRunResumes(LENIENT, [LIB, APP], EMPTY_REGISTRIES, LATEST, 2);
  }
}
