/** Workspace packages and the dependency edges they declare. */
module Packages {
  import opened Wrappers

  datatype Field = Dependencies | PeerDependencies | OptionalDependencies

  datatype Package = Package(
    name: Option<string>,
    dir: string,
    version: Option<string>,
    dependencies: map<string, string>,
    devDependencies: map<string, string>,
    peerDependencies: map<string, string>,
    optionalDependencies: map<string, string>)
  {
    function Name(): string { if name.Some? then name.value else dir }

    function Shipped(field: Field): map<string, string> {
      match field
      case Dependencies => dependencies
      case PeerDependencies => peerDependencies
      case OptionalDependencies => optionalDependencies
    }

    /** Every name in a field that ships with the package. */
    function ShippedNames(): set<string> {
      dependencies.Keys + peerDependencies.Keys + optionalDependencies.Keys
    }
  }

  predicate IsInternal(name: string) {
    "@sixb/" <= name || name == "create-sixb"
  }

  /** The sibling packages a package depends on, in the fields that ship. */
  function InternalDependencies(p: Package): (names: set<string>)
  {
    set name | name in p.ShippedNames() && IsInternal(name)
  }

  /** The packages by name; when a name occurs twice, the last one counts. */
  function ByName(packages: seq<Package>): (m: map<string, Package>)
    ensures forall name | name in m :: m[name] in packages && m[name].Name() == name
    ensures forall p | p in packages :: p.Name() in m
  {
    if packages == [] then map[]
    else
      var last := packages[|packages| - 1];
      ByName(packages[..|packages| - 1])[last.Name() := last]
  }

  predicate DistinctNames(packages: seq<Package>) {
    forall i, j | 0 <= i < j < |packages| :: packages[i].Name() != packages[j].Name()
  }

  lemma {:induction false} ByNameFinds(packages: seq<Package>, i: nat)
    requires DistinctNames(packages) && i < |packages|
    ensures packages[i].Name() in ByName(packages) && ByName(packages)[packages[i].Name()] == packages[i]
  {
    if i < |packages| - 1 {
      ByNameFinds(packages[..|packages| - 1], i);
    }
  }

  lemma {:induction false} ByNameHolds(packages: seq<Package>, p: Package)
    requires DistinctNames(packages)
    ensures p in packages <==> p.Name() in ByName(packages) && ByName(packages)[p.Name()] == p
  {
    if p in packages {
      var i :| 0 <= i < |packages| && packages[i] == p;
      ByNameFinds(packages, i);
    }
  }

  /** With distinct names the order of the packages does not matter. */
  lemma {:induction false} ByNameUnordered(packages: seq<Package>, shuffled: seq<Package>)
    requires DistinctNames(packages) && DistinctNames(shuffled)
    requires forall p :: p in packages <==> p in shuffled
    ensures ByName(packages) == ByName(shuffled)
  {
    hide DistinctNames;
    var a, b := ByName(packages), ByName(shuffled);
    forall name | name in a ensures name in b && b[name] == a[name] {
      ByNameHolds(shuffled, a[name]);
    }
    forall name | name in b ensures name in a {
      ByNameHolds(packages, b[name]);
    }
  }
}
