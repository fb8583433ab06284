/** The publish planner: which workspace packages to publish, and the assertions before the first write. */
module ReleasePlan {
  import opened Wrappers
  import opened Packages
  import opened WorkspacePolicy

  /** The dependency fields of a published version, with its ranges resolved. */
  datatype Manifest = Manifest(dependencies: map<string, string>,
                               peerDependencies: map<string, string>,
                               optionalDependencies: map<string, string>)
  {
    function Shipped(field: Field): map<string, string> {
      match field
      case Dependencies => dependencies
      case PeerDependencies => peerDependencies
      case OptionalDependencies => optionalDependencies
    }

    function Names(): set<string> {
      dependencies.Keys + peerDependencies.Keys + optionalDependencies.Keys
    }
  }

  datatype Registry = Registry(versions: map<string, Manifest>, tags: map<string, string>) {
    function Tag(tag: string): Option<string> {
      if tag in tags then Some(tags[tag]) else None
    }
  }

  type Registries = map<string, Registry>

  /** Semantic versioning as the runtime provides it: a comparison, and whether a version is in a range. */
  datatype Semver = Semver(order: (string, string) -> int, satisfies: (string, string) -> bool)

  datatype Release = Release(packageInfo: Package, name: string, version: string)

  datatype Plan = Plan(publish: seq<Release>, deferredInitial: seq<Release>, stagedForPromotion: seq<Release>,
                       alreadyPublished: int)

  datatype PlanError =
    | NoVersion(name: string)
    | RegistryMissing(name: string)
    | TagBackwards(name: string)
    | PublishedIncompatible(name: string)
    | DependencyUnavailable(name: string)

  const LATEST := "latest"

  predicate Blank(version: Option<string>) {
    version.None? || forall c | c in version.value :: c in " \t\r\n"
  }

  function ReleaseOf(p: Package): Release
    requires p.version.Some?
  {
    Release(p, p.Name(), p.version.value)
  }

  // -------------------------------------------------------- tags move forward

  predicate NotBehind(semver: Semver, version: string, current: Option<string>) {
    current.None? || current.value == "" || semver.order(version, current.value) >= 0
  }

  predicate AdvancesTags(semver: Semver, version: string, registry: Registry, tag: string) {
    NotBehind(semver, version, registry.Tag(tag)) && NotBehind(semver, version, registry.Tag(LATEST))
  }

  // --------------------------------------------------- what becomes of a package

  datatype Class = Publishes | Defers | Stages | Skips

  function Classify(semver: Semver, p: Package, registries: Registries, tag: string): Result<Class, PlanError> {
    if Blank(p.version) then Err(NoVersion(p.Name()))
    else if p.Name() !in registries then Err(RegistryMissing(p.Name()))
    else ClassifyIn(semver, p, registries[p.Name()], tag)
  }

  function ClassifyIn(semver: Semver, p: Package, registry: Registry, tag: string): Result<Class, PlanError>
    requires p.version.Some?
  {
    var version := p.version.value;
    if version !in registry.versions then
      if !AdvancesTags(semver, version, registry, tag) then Err(TagBackwards(p.Name()))
      else if |registry.versions| == 0 && tag != LATEST then Ok(Defers)
      else Ok(Publishes)
    else if tag != LATEST && registry.Tag(tag) == Some(version) && registry.Tag(LATEST) != Some(version) then
      if !AdvancesTags(semver, version, registry, tag) then Err(TagBackwards(p.Name())) else Ok(Stages)
    else Ok(Skips)
  }

  function FirstError(semver: Semver, ordered: seq<Package>, registries: Registries, tag: string): Option<PlanError> {
    if ordered == [] then None
    else
      var before := FirstError(semver, ordered[..|ordered| - 1], registries, tag);
      if before.Some? then before
      else
        var c := Classify(semver, ordered[|ordered| - 1], registries, tag);
        if c.Err? then Some(c.error) else None
  }

  /** The releases of the packages in one class, in order. */
  function Pick(semver: Semver, ordered: seq<Package>, registries: Registries, tag: string,
                class_: Class): (picked: seq<Release>)
    ensures |picked| <= |ordered|
  {
    if ordered == [] then []
    else
      var p := ordered[|ordered| - 1];
      Pick(semver, ordered[..|ordered| - 1], registries, tag, class_)
        + if p.version.Some? && Classify(semver, p, registries, tag) == Ok(class_) then [ReleaseOf(p)] else []
  }

  // ----------------------------------------------------- compatible with what is out

  /** A published version's entry for a dependency: an empty range is none. */
  function PublishedEntry(m: Manifest, d: string): Option<(Field, string)> {
    OnlyField(f => d in m.Shipped(f) && m.Shipped(f)[d] != "",
              f requires d in m.Shipped(f) => m.Shipped(f)[d])
  }

  /** Exact edges must name today's sibling; compatible ones may keep an older caret that still accepts it. */
  predicate RangeAccepts(semver: Semver, workspaceRange: string, publishedRange: string, version: string) {
    if workspaceRange == EXACT then publishedRange == version
    else workspaceRange == COMPATIBLE && "^" <= publishedRange && semver.satisfies(version, publishedRange)
  }

  predicate EdgeCompatible(semver: Semver, p: Package, m: Manifest, byName: map<string, Package>, d: string) {
    d in byName && !Blank(byName[d].version)
    && var local, published := LocalEntry(p, d), PublishedEntry(m, d);
       local.Some? && published.Some? && published.value.0 == local.value.0
       && RangeAccepts(semver, local.value.1, published.value.1, byName[d].version.value)
  }

  /** The edges the check looks at: workspace entries, and published names that are workspace packages. */
  function CheckedEdges(p: Package, m: Manifest, byName: map<string, Package>): set<string> {
    InternalDependencies(p) + (set d | d in m.Names() && d in byName)
  }

  predicate PackageCompatible(semver: Semver, p: Package, registries: Registries, byName: map<string, Package>) {
    p.version.Some? && p.version.value != "" && p.Name() in registries
      && p.version.value in registries[p.Name()].versions ==>
    forall d | d in CheckedEdges(p, registries[p.Name()].versions[p.version.value], byName) ::
      EdgeCompatible(semver, p, registries[p.Name()].versions[p.version.value], byName, d)
  }

  function FirstIncompatible(semver: Semver, ordered: seq<Package>, registries: Registries, byName: map<string,
                             Package>)
    : Option<PlanError>
  {
    if ordered == [] then None
    else
      var before := FirstIncompatible(semver, ordered[..|ordered| - 1], registries, byName);
      if before.Some? then before
      else if PackageCompatible(semver, ordered[|ordered| - 1], registries, byName) then None
      else Some(PublishedIncompatible(ordered[|ordered| - 1].Name()))
  }

  // --------------------------------------------------------- dependencies come first

  predicate InRegistry(registries: Registries, name: string, version: string) {
    name in registries && version in registries[name].versions
  }

  /** What a release needs is on the registry, or comes before it in the plan. */
  predicate DependencyReady(registries: Registries, byName: map<string, Package>, earlier: seq<Release>, d: string) {
    d in byName && !Blank(byName[d].version)
    && (InRegistry(registries, d, byName[d].version.value)
        || exists j | 0 <= j < |earlier| :: earlier[j].name == d && earlier[j].version == byName[d].version.value)
  }

  predicate ReleaseReady(registries: Registries, byName: map<string, Package>, earlier: seq<Release>,
                         release: Release) {
    forall d | d in InternalDependencies(release.packageInfo) :: DependencyReady(registries, byName, earlier, d)
  }

  function FirstUnavailable(registries: Registries, byName: map<string, Package>,
                            publish: seq<Release>): Option<PlanError> {
    if publish == [] then None
    else
      var n := |publish| - 1;
      var before := FirstUnavailable(registries, byName, publish[..n]);
      if before.Some? then before
      else if ReleaseReady(registries, byName, publish[..n], publish[n]) then None
      else Some(DependencyUnavailable(publish[n].name))
  }

  // -------------------------------------------------------------------- the plan

  function PlanOf(semver: Semver, ordered: seq<Package>, registries: Registries, tag: string): Result<Plan, PlanError> {
    var publish := Pick(semver, ordered, registries, tag, Publishes);
    var deferred := Pick(semver, ordered, registries, tag, Defers);
    var unclassified := FirstError(semver, ordered, registries, tag);
    var incompatible := FirstIncompatible(semver, ordered, registries, ByName(ordered));
    var unavailable := FirstUnavailable(registries, ByName(ordered), publish);
    if unclassified.Some? then Err(unclassified.value)
    else if incompatible.Some? then Err(incompatible.value)
    else if unavailable.Some? then Err(unavailable.value)
    else Ok(Plan(publish, deferred, Pick(semver, ordered, registries, tag, Stages),
                 |ordered| - |publish| - |deferred|))
  }

  /** The loop's state once `done` has been looked at. */
  ghost predicate Sorted(semver: Semver, done: seq<Package>, registries: Registries, tag: string,
                         publish: seq<Release>, deferred: seq<Release>, staged: seq<Release>)
  {
    FirstError(semver, done, registries, tag) == None
    && publish == Pick(semver, done, registries, tag, Publishes)
    && deferred == Pick(semver, done, registries, tag, Defers)
    && staged == Pick(semver, done, registries, tag, Stages)
  }

  method CreatePackageReleasePlan(semver: Semver, ordered: seq<Package>, registries: Registries, tag: string)
    returns (r: Result<Plan, PlanError>)
    ensures r == PlanOf(semver, ordered, registries, tag)
  {
    hide Classify, ByName, Sorted, FirstError, Pick;
    var publish, deferred, staged := [], [], [];
    NothingSorted(semver, registries, tag);
    for index := 0 to |ordered|
      invariant Sorted(semver, ordered[..index], registries, tag, publish, deferred, staged)
    {
      var packageInfo := ordered[index];
      ClassifyOk(semver, packageInfo, registries, tag);
      SortedNext(semver, ordered, index, registries, tag, publish, deferred, staged);
      var c := Classify(semver, packageInfo, registries, tag);
      if c.Err? {
        FirstErrorStays(semver, ordered, index + 1, registries, tag);
        return Err(c.error);
      }
      var release := ReleaseOf(packageInfo);
      match c.value {
        case Publishes => publish := publish + [release];
        case Defers => deferred := deferred + [release];
        case Stages => staged := staged + [release];
        case Skips =>
      }
    }
    assert ordered[..|ordered|] == ordered;
    SortedAll(semver, ordered, registries, tag, publish, deferred, staged);
    var incompatible := AssertPublishedCompatible(semver, ordered, registries);
    if incompatible.Some? {
      return Err(incompatible.value);
    }
    var unavailable := AssertDependenciesAvailable(ordered, publish, registries);
    if unavailable.Some? {
      return Err(unavailable.value);
    }
    r := Ok(Plan(publish, deferred, staged, |ordered| - |publish| - |deferred|));
  }

  lemma NothingSorted(semver: Semver, registries: Registries, tag: string)
    ensures Sorted(semver, [], registries, tag, [], [], [])
  {
  }

  lemma {:induction false} SortedAll(semver: Semver, ordered: seq<Package>, registries: Registries, tag: string,
                                     publish: seq<Release>, deferred: seq<Release>, staged: seq<Release>)
    requires Sorted(semver, ordered, registries, tag, publish, deferred, staged)
    ensures FirstError(semver, ordered, registries, tag) == None
    ensures publish == Pick(semver, ordered, registries, tag, Publishes)
    ensures deferred == Pick(semver, ordered, registries, tag, Defers)
    ensures staged == Pick(semver, ordered, registries, tag, Stages)
  {
  }

  lemma {:induction false} SortedNext(semver: Semver, ordered: seq<Package>, i: nat, registries: Registries,
                                      tag: string,
                                      publish: seq<Release>, deferred: seq<Release>, staged: seq<Release>)
    requires i < |ordered| && Sorted(semver, ordered[..i], registries, tag, publish, deferred, staged)
    ensures var c := Classify(semver, ordered[i], registries, tag);
            if c.Err? then FirstError(semver, ordered[..i + 1], registries, tag) == Some(c.error)
            else ordered[i].version.Some?
                 && var one := [ReleaseOf(ordered[i])];
                 Sorted(semver, ordered[..i + 1], registries, tag,
                        if c.value == Publishes then publish + one else publish,
                        if c.value == Defers then deferred + one else deferred,
                        if c.value == Stages then staged + one else staged)
  {
    ClassifyOk(semver, ordered[i], registries, tag);
    hide Classify;
    var upTo := ordered[..i + 1];
    assert upTo[..|upTo| - 1] == ordered[..i];
  }

  lemma ClassifyOk(semver: Semver, p: Package, registries: Registries, tag: string)
    ensures Classify(semver, p, registries, tag).Ok? ==> p.version.Some? && p.Name() in registries
  {
  }

  lemma {:induction false} FirstErrorStays(semver: Semver, ordered: seq<Package>, k: nat, registries: Registries,
                                           tag: string)
    requires k <= |ordered| && FirstError(semver, ordered[..k], registries, tag).Some?
    ensures FirstError(semver, ordered, registries, tag) == FirstError(semver, ordered[..k], registries, tag)
    decreases |ordered|
  {
    if k == |ordered| {
      assert ordered[..k] == ordered;
    } else {
      var n := |ordered| - 1;
      assert ordered[..n][..k] == ordered[..k];
      FirstErrorStays(semver, ordered[..n], k, registries, tag);
    }
  }

  /** Compares every published workspace version with the workspace that would resolve it today. */
  method AssertPublishedCompatible(semver: Semver, ordered: seq<Package>, registries: Registries)
    returns (failure: Option<PlanError>)
    ensures failure == FirstIncompatible(semver, ordered, registries, ByName(ordered))
  {
    hide EdgeCompatible, CheckedEdges;
    var byName := ByName(ordered);
    hide ByName;
    for index := 0 to |ordered|
      invariant FirstIncompatible(semver, ordered[..index], registries, byName) == None
    {
      var p := ordered[index];
      var upTo := ordered[..index + 1];
      assert upTo[..|upTo| - 1] == ordered[..index];
      if p.version.Some? && p.version.value != "" && p.Name() in registries
         && p.version.value in registries[p.Name()].versions {
        var published := registries[p.Name()].versions[p.version.value];
        var edges := CheckedEdges(p, published, byName);
        var compatible := AllEdgesCompatible(semver, p, published, byName, edges);
        if !compatible {
          FirstIncompatibleStays(semver, ordered, index + 1, registries, byName);
          return Some(PublishedIncompatible(p.Name()));
        }
      }
    }
    assert ordered[..|ordered|] == ordered;
    failure := None;
  }

  method AllEdgesCompatible(semver: Semver, p: Package, m: Manifest, byName: map<string, Package>, edges: set<string>)
    returns (compatible: bool)
    ensures compatible <==> forall d | d in edges :: EdgeCompatible(semver, p, m, byName, d)
  {
    hide EdgeCompatible;
    var todo := edges;
    while todo != {}
      invariant todo <= edges
      invariant forall d | d in edges - todo :: EdgeCompatible(semver, p, m, byName, d)
    {
      var d :| d in todo;
      if !EdgeCompatible(semver, p, m, byName, d) {
        return false;
      }
      todo := todo - {d};
    }
    compatible := true;
  }

  lemma {:induction false} FirstIncompatibleStays(semver: Semver, ordered: seq<Package>, k: nat, registries: Registries,
                                                  byName: map<string, Package>)
    requires k <= |ordered| && FirstIncompatible(semver, ordered[..k], registries, byName).Some?
    ensures FirstIncompatible(semver, ordered, registries, byName) == FirstIncompatible(semver, ordered[..k], registries, byName)
    decreases |ordered|
  {
    hide PackageCompatible;
    if k == |ordered| {
      assert ordered[..k] == ordered;
    } else {
      var n := |ordered| - 1;
      assert ordered[..n][..k] == ordered[..k];
      FirstIncompatibleStays(semver, ordered[..n], k, registries, byName);
    }
  }

  /** Walks the plan with the growing set of versions that will be there. */
  method AssertDependenciesAvailable(ordered: seq<Package>, publish: seq<Release>, registries: Registries)
    returns (failure: Option<PlanError>)
    ensures failure == FirstUnavailable(registries, ByName(ordered), publish)
  {
    var byName := ByName(ordered);
    var available := RegistryVersions(ordered, registries);
    hide ByName;
    for index := 0 to |publish|
      invariant FirstUnavailable(registries, byName, publish[..index]) == None
      invariant forall d | d in byName && byName[d].version.Some? && !Blank(byName[d].version) ::
                  (d, byName[d].version.value) in available <==>
                    (InRegistry(registries, d, byName[d].version.value)
                     || exists j | 0 <= j < index :: publish[j].name == d && publish[j].version == byName[d].version.value)
    {
      var release := publish[index];
      var upTo := publish[..index + 1];
      assert upTo[..|upTo| - 1] == publish[..index];
      var ready := AllDependenciesReady(release, byName, available);
      assert ready <==> ReleaseReady(registries, byName, publish[..index], release) by {
        forall d | d in InternalDependencies(release.packageInfo)
          ensures DependencyReady(registries, byName, publish[..index], d) <==>
                  (d in byName && !Blank(byName[d].version) && (d, byName[d].version.value) in available)
        {
        }
      }
      if !ready {
        FirstUnavailableStays(registries, byName, publish, index + 1);
        return Some(DependencyUnavailable(release.name));
      }
      available := available + {(release.name, release.version)};
    }
    assert publish[..|publish|] == publish;
    failure := None;
  }

  method AllDependenciesReady(release: Release, byName: map<string, Package>, available: set<(string, string)>)
    returns (ready: bool)
    ensures ready <==> forall d | d in InternalDependencies(release.packageInfo) ::
                         d in byName && !Blank(byName[d].version) && (d, byName[d].version.value) in available
  {
    var dependencies := InternalDependencies(release.packageInfo);
    var todo := dependencies;
    while todo != {}
      invariant todo <= dependencies
      invariant forall d | d in dependencies - todo ::
                  d in byName && !Blank(byName[d].version) && (d, byName[d].version.value) in available
    {
      var d :| d in todo;
      if d !in byName || Blank(byName[d].version) || (d, byName[d].version.value) !in available {
        return false;
      }
      todo := todo - {d};
    }
    ready := true;
  }

  /** The workspace versions the registry already has. */
  method RegistryVersions(ordered: seq<Package>, registries: Registries) returns (available: set<(string, string)>)
    ensures forall d | d in ByName(ordered) && ByName(ordered)[d].version.Some? && !Blank(ByName(ordered)[d].version) ::
              (d, ByName(ordered)[d].version.value) in available <==>
                InRegistry(registries, d, ByName(ordered)[d].version.value)
  {
    available := {};
    for index := 0 to |ordered|
      invariant forall name, version | (name, version) in available :: InRegistry(registries, name, version)
      invariant forall i | 0 <= i < index && ordered[i].version.Some? && ordered[i].version.value != ""
                           && InRegistry(registries, ordered[i].Name(), ordered[i].version.value) ::
                  (ordered[i].Name(), ordered[i].version.value) in available
    {
      var p := ordered[index];
      if p.version.Some? && p.version.value != "" && p.Name() in registries
         && p.version.value in registries[p.Name()].versions {
        available := available + {(p.Name(), p.version.value)};
      }
    }
    forall d | d in ByName(ordered) && ByName(ordered)[d].version.Some? && !Blank(ByName(ordered)[d].version)
               && InRegistry(registries, d, ByName(ordered)[d].version.value)
      ensures (d, ByName(ordered)[d].version.value) in available
    {
      var i :| 0 <= i < |ordered| && ordered[i] == ByName(ordered)[d];
    }
  }

  lemma {:induction false} FirstUnavailableStays(registries: Registries, byName: map<string, Package>,
                                                 publish: seq<Release>, k: nat)
    requires k <= |publish| && FirstUnavailable(registries, byName, publish[..k]).Some?
    ensures FirstUnavailable(registries, byName, publish) == FirstUnavailable(registries, byName, publish[..k])
    decreases |publish|
  {
    hide ReleaseReady;
    if k == |publish| {
      assert publish[..k] == publish;
    } else {
      var n := |publish| - 1;
      assert publish[..n][..k] == publish[..k];
      FirstUnavailableStays(registries, byName, publish[..n], k);
    }
  }
}
