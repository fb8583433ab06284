/** The policy for shipped workspace edges: in which field, and with which range, each must be declared. */
module WorkspacePolicy {
  import opened Wrappers
  import opened Packages

  const EXACT := "workspace:*"
  const COMPATIBLE := "workspace:^"

  const CORE_INTERNAL_COMPANIONS := {
    "@sixb/agent", "@sixb/agent-worker", "@sixb/orchestrator", "@sixb/pg", "@sixb/pipeline-worker",
    "@sixb/projection-worker", "@sixb/rules-worker", "@sixb/server", "@sixb/sqlite", "@sixb/sync-worker",
    "@sixb/workflow-worker"}

  const EXTENSION_ROOTS := {
    "auth", "broker", "connectors", "deploy", "env", "loggers", "queues", "sandboxes", "storage"}

  const CLI_RUNTIME_COMPANIONS := CORE_INTERNAL_COMPANIONS - {"@sixb/pg", "@sixb/sqlite"}

  /** The first path segment of a directory. */
  function Root(dir: string): string {
    if dir == "" || dir[0] == '/' then "" else [dir[0]] + Root(dir[1..])
  }

  lemma {:induction false} RootIsFirstSegment(dir: string)
    ensures '/' !in Root(dir) && (Root(dir) == dir || Root(dir) + "/" <= dir)
  {
    if dir != "" && dir[0] != '/' {
      RootIsFirstSegment(dir[1..]);
      assert dir == [dir[0]] + dir[1..];
    }
  }

  /**
    Where a dependency belongs, and its range. Only the core is ever a peer: of its
    companions and of extensions, but not of the command line. A range is exact for model
    protocols, among the core and its companions, and from the command line to what it runs.
   */
  function ExpectedWorkspaceDependency(p: Package, dependency: string): (expected: (Field, string))
    ensures expected.0 == Dependencies || expected.0 == PeerDependencies
    ensures expected.0 == PeerDependencies <==>
              && dependency == "@sixb/core" && p.Name() != "@sixb/cli"
              && (p.Name() in CORE_INTERNAL_COMPANIONS || Root(p.dir) in EXTENSION_ROOTS)
    ensures expected.1 == EXACT || expected.1 == COMPATIBLE
    ensures expected.1 == EXACT <==>
              || dependency == "@sixb/model-protocols"
              || (p.Name() in CORE_INTERNAL_COMPANIONS && dependency in CORE_INTERNAL_COMPANIONS + {"@sixb/core"})
              || (p.Name() == "@sixb/cli" && dependency in CLI_RUNTIME_COMPANIONS + {"@sixb/core"})
  {
    if dependency == "@sixb/model-protocols" then (Dependencies, EXACT)
    else if p.Name() == "@sixb/cli" then
      (Dependencies, if dependency == "@sixb/core" || dependency in CLI_RUNTIME_COMPANIONS then EXACT else COMPATIBLE)
    else if p.Name() in CORE_INTERNAL_COMPANIONS && dependency in CORE_INTERNAL_COMPANIONS then (Dependencies, EXACT)
    else if dependency == "@sixb/core" && p.Name() in CORE_INTERNAL_COMPANIONS then (PeerDependencies, EXACT)
    else if dependency == "@sixb/core" && Root(p.dir) in EXTENSION_ROOTS then (PeerDependencies, COMPATIBLE)
    else (Dependencies, COMPATIBLE)
  }

  /** The one shipped field that declares a dependency, with its range. */
  function OnlyField(has: Field -> bool, range: Field --> string): Option<(Field, string)>
    requires forall f | has(f) :: range.requires(f)
  {
    if has(Dependencies) && !has(PeerDependencies) && !has(OptionalDependencies) then
      Some((Dependencies, range(Dependencies)))
    else if !has(Dependencies) && has(PeerDependencies) && !has(OptionalDependencies) then
      Some((PeerDependencies, range(PeerDependencies)))
    else if !has(Dependencies) && !has(PeerDependencies) && has(OptionalDependencies) then
      Some((OptionalDependencies, range(OptionalDependencies)))
    else None
  }

  /** A package's workspace entry for a dependency: only internal names have one. */
  function LocalEntry(p: Package, d: string): Option<(Field, string)> {
    if !IsInternal(d) then None
    else OnlyField(f => d in p.Shipped(f), f requires d in p.Shipped(f) => p.Shipped(f)[d])
  }

  datatype PolicyError =
    | SeveralFields(dependency: string)
    | WrongDeclaration(dependency: string)
    | WrongDevelopmentRange(dependency: string)

  predicate DevelopsAgainst(p: Package, d: string) {
    d in p.devDependencies && p.devDependencies[d] == EXACT
  }

  /** The errors one dependency gives rise to. */
  function DependencyErrors(p: Package, d: string): set<PolicyError> {
    var expected := ExpectedWorkspaceDependency(p, d);
    var entry := LocalEntry(p, d);
    if entry.None? then {SeveralFields(d)}
    else
      (if entry.value != expected then {WrongDeclaration(d)} else {})
      + (if expected.0 == PeerDependencies && !DevelopsAgainst(p, d) then {WrongDevelopmentRange(d)} else {})
  }

  /** Every internal dependency is declared once, in the expected field and range. */
  predicate MeetsPolicy(p: Package) {
    forall d | d in InternalDependencies(p) ::
      var expected := ExpectedWorkspaceDependency(p, d);
      LocalEntry(p, d) == Some(expected) && (expected.0 == PeerDependencies ==> DevelopsAgainst(p, d))
  }

  /** Collects the errors; there are none exactly when the package meets the policy. */
  method WorkspaceDependencyPolicyErrors(p: Package) returns (errors: seq<PolicyError>)
    ensures forall e :: e in errors <==> exists d :: d in InternalDependencies(p) && e in DependencyErrors(p, d)
    ensures errors == [] <==> MeetsPolicy(p)
  {
    errors := [];
    var todo := InternalDependencies(p);
    while todo != {}
      invariant todo <= InternalDependencies(p)
      invariant forall e :: e in errors <==>
                  exists d :: d in InternalDependencies(p) - todo && e in DependencyErrors(p, d)
    {
      hide LocalEntry, ExpectedWorkspaceDependency;
      var d :| d in todo;
      var expected := ExpectedWorkspaceDependency(p, d);
      var entry := LocalEntry(p, d);
      ghost var before := errors;
      if entry.None? {
        errors := errors + [SeveralFields(d)];
      } else {
        if entry.value != expected {
          errors := errors + [WrongDeclaration(d)];
        }
        if expected.0 == PeerDependencies && !DevelopsAgainst(p, d) {
          errors := errors + [WrongDevelopmentRange(d)];
        }
      }
      assert forall e :: e in errors <==> e in before || e in DependencyErrors(p, d);
      assert InternalDependencies(p) - (todo - {d}) == InternalDependencies(p) - todo + {d};
      todo := todo - {d};
    }
    NoErrorsMeetsPolicy(p, errors);
  }

  lemma NoErrorsMeetsPolicy(p: Package, errors: seq<PolicyError>)
    requires forall e :: e in errors <==> exists d :: d in InternalDependencies(p) && e in DependencyErrors(p, d)
    ensures errors == [] <==> MeetsPolicy(p)
  {
    hide LocalEntry, ExpectedWorkspaceDependency;
    forall d | d in InternalDependencies(p)
      ensures DependencyErrors(p, d) == {} <==>
              LocalEntry(p, d) == Some(ExpectedWorkspaceDependency(p, d))
              && (ExpectedWorkspaceDependency(p, d).0 == PeerDependencies ==> DevelopsAgainst(p, d))
    {
      if DependencyErrors(p, d) == {} {
        assert SeveralFields(d) !in DependencyErrors(p, d) && WrongDeclaration(d) !in DependencyErrors(p, d);
        assert WrongDevelopmentRange(d) !in DependencyErrors(p, d);
      }
    }
    assert errors == [] <==> forall e :: e !in errors by {
      assert errors != [] ==> errors[0] in errors;
    }
    if forall e :: e !in errors {
      forall d | d in InternalDependencies(p) ensures DependencyErrors(p, d) == {} {
        assert forall e :: e in DependencyErrors(p, d) ==> e in errors;
      }
    }
  }
}
