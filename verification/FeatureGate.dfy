/**
 The swarm gate: Cargo features form a graph, possibly cyclic, and the gate decides by
 reachability whether swarm support is off by default and on under the `swarm` feature.
 */
module FeatureGate {

  type Features = map<string, seq<string>>

  import opened Common

  datatype Dependency = Dependency(name: string, kind: Option<string>, optional: bool, rename: Option<string>)

  datatype Package = Package(name: string, features: Features, dependencies: seq<Dependency>)

  datatype Verdict = Accepted | DefaultEnablesSwarm | NotDefaultOff | NotActivated

  // -------------------------------------------------------------------- reachability

  ghost predicate Edge(f: Features, a: string, b: string) {
    a in f && b in f[a]
  }

  ghost predicate Path(f: Features, path: seq<string>) {
    forall i :: 0 <= i < |path| - 1 ==> Edge(f, path[i], path[i + 1])
  }

  ghost predicate PathFromTo(f: Features, path: seq<string>, a: string, b: string) {
    path != [] && path[0] == a && path[|path| - 1] == b && Path(f, path)
  }

  ghost predicate Reaches(f: Features, a: string, b: string) {
    exists path :: PathFromTo(f, path, a, b)
  }

  lemma ReachesSelf(f: Features, a: string)
    ensures Reaches(f, a, a)
  {
    assert PathFromTo(f, [a], a, a);
  }

  lemma ReachesChild(f: Features, a: string, b: string, c: string)
    requires Reaches(f, a, b) && Edge(f, b, c)
    ensures Reaches(f, a, c)
  {
    var path :| PathFromTo(f, path, a, b);
    assert PathFromTo(f, path + [c], a, c);
  }

  lemma {:induction false} ClosedHoldsPath(f: Features, s: set<string>, path: seq<string>, i: nat)
    requires forall x, y :: x in s && Edge(f, x, y) ==> y in s
    requires Path(f, path) && i < |path| && path[0] in s
    ensures path[i] in s
  {
    if i > 0 {
      ClosedHoldsPath(f, s, path, i - 1);
      assert Edge(f, path[i - 1], path[i]);
    }
  }

  /** Everything a walk can ever push. */
  function Names(f: Features, root: string): set<string> {
    {root} + set a, b | a in f && b in f[a] :: b
  }

  /** State of the walk: what is visited or pending is reachable, and nothing is forgotten. */
  ghost predicate Walking(f: Features, root: string, visited: set<string>, pending: seq<string>) {
    && (root in visited || root in pending)
    && (forall x :: x in visited || x in pending ==> Reaches(f, root, x) && x in Names(f, root))
    && forall x, y :: x in visited && Edge(f, x, y) ==> y in visited || y in pending
  }

  function Children(f: Features, name: string): seq<string> {
    if name in f then f[name] else []
  }

  lemma Skip(f: Features, root: string, visited: set<string>, rest: seq<string>, name: string)
    requires Walking(f, root, visited, rest + [name]) && name in visited
    ensures Walking(f, root, visited, rest)
  {
    assert forall x :: x in rest + [name] <==> x in rest || x == name;
  }

  lemma Expand(f: Features, root: string, visited: set<string>, rest: seq<string>, name: string)
    requires Walking(f, root, visited, rest + [name])
    ensures Walking(f, root, visited + {name}, rest + Children(f, name))
    ensures name in Names(f, root)
  {
    assert name in rest + [name];
    assert forall x :: x in rest + [name] <==> x in rest || x == name;
    forall y | y in Children(f, name)
      ensures Reaches(f, root, y) && y in Names(f, root)
    {
      ReachesChild(f, root, name, y);
    }
  }

  lemma Finished(f: Features, root: string, visited: set<string>)
    requires Walking(f, root, visited, [])
    ensures forall x :: x in visited <==> Reaches(f, root, x)
  {
    forall x | Reaches(f, root, x)
      ensures x in visited
    {
      var path :| PathFromTo(f, path, root, x);
      ClosedHoldsPath(f, visited, path, |path| - 1);
    }
  }

  /** The worklist walk: a stack, with duplicates, and a visited set. */
  method Closure(f: Features, root: string) returns (visited: set<string>)
    ensures forall x :: x in visited <==> Reaches(f, root, x)
  {
    visited := {};
    var pending := [root];
    ReachesSelf(f, root);
    while pending != []
      invariant Walking(f, root, visited, pending)
      decreases |Names(f, root) - visited|, |pending|
    {
      var name := pending[|pending| - 1];
      var rest := pending[..|pending| - 1];
      assert pending == rest + [name];
      pending := rest;
      if name in visited {
        Skip(f, root, visited, rest, name);
        continue;
      }
      Expand(f, root, visited, rest, name);
      Shrinks(Names(f, root), visited, name);
      visited := visited + {name};
      pending := pending + Children(f, name);
    }
    Finished(f, root, visited);
  }

  lemma Shrinks(all: set<string>, visited: set<string>, x: string)
    requires x in all && x !in visited
    ensures |all - (visited + {x})| < |all - visited|
  {
    assert all - visited == all - (visited + {x}) + {x};
  }

  // ------------------------------------------------------------------------- the gate

  const SWARM := "swarm"
  const SWARM_SUFFIX := "/swarm"
  const DEFAULT := "default"
  const CRATE := "vesper-swarm"

  predicate EndsWith(s: string, suffix: string) {
    |suffix| <= |s| && s[|s| - |suffix|..] == suffix
  }

  predicate IsSwarm(feature: string) {
    feature == SWARM || EndsWith(feature, SWARM_SUFFIX)
  }

  /** Dependencies the gate looks at: the swarm crate, unless for tests only. */
  predicate Guarded(d: Dependency) {
    d.name == CRATE && d.kind != Some("dev")
  }

  function LocalName(d: Dependency): string {
    if d.rename.Some? then d.rename.value else d.name
  }

  /** A feature that turns a dependency on: by name, explicitly, or through one of its features. */
  predicate Activates(name: string, feature: string) {
    feature == name || feature == "dep:" + name || name + "/" <= feature
  }

  ghost predicate ReachesSwarm(f: Features, root: string) {
    exists x :: Reaches(f, root, x) && IsSwarm(x)
  }

  ghost predicate ReachesActivator(f: Features, root: string, d: Dependency) {
    exists x :: Reaches(f, root, x) && Activates(LocalName(d), x)
  }

  ghost predicate DefaultOff(f: Features, d: Dependency) {
    d.optional && !ReachesActivator(f, DEFAULT, d)
  }

  /** What the gate promises of an accepted package. */
  ghost predicate SwarmIsOptIn(p: Package) {
    && !ReachesSwarm(p.features, DEFAULT)
    && forall d :: d in p.dependencies && Guarded(d) ==>
         DefaultOff(p.features, d) && ReachesActivator(p.features, SWARM, d)
  }

  /** The first dependency, in order, that breaks the promise, and how. */
  ghost function DependencyVerdict(f: Features, ds: seq<Dependency>): Verdict {
    if ds == [] then Accepted
    else if !Guarded(ds[0]) then DependencyVerdict(f, ds[1..])
    else if !DefaultOff(f, ds[0]) then NotDefaultOff
    else if !ReachesActivator(f, SWARM, ds[0]) then NotActivated
    else DependencyVerdict(f, ds[1..])
  }

  ghost function GateVerdict(p: Package): Verdict {
    if ReachesSwarm(p.features, DEFAULT) then DefaultEnablesSwarm
    else DependencyVerdict(p.features, p.dependencies)
  }

  lemma {:induction false} AcceptsAllDependencies(f: Features, ds: seq<Dependency>)
    ensures DependencyVerdict(f, ds) == Accepted <==>
      forall d :: d in ds && Guarded(d) ==> DefaultOff(f, d) && ReachesActivator(f, SWARM, d)
  {
    if ds != [] {
      AcceptsAllDependencies(f, ds[1..]);
      assert forall d :: d in ds <==> d == ds[0] || d in ds[1..];
    }
  }

  /** A package is accepted exactly when swarm is opt-in for it, on every path of the graph. */
  lemma AcceptedIff(p: Package)
    ensures GateVerdict(p) == Accepted <==> SwarmIsOptIn(p)
  {
    AcceptsAllDependencies(p.features, p.dependencies);
  }

  /** A feature that is the swarm, or the swarm feature of some dependency. */
  ghost predicate NamesSwarm(x: string) {
    x == "swarm" || exists a: string :: x == a + "/swarm"
  }

  /** A feature that turns on the dependency known by a name: itself, `dep:`, or one of its features. */
  ghost predicate TurnsOn(x: string, name: string) {
    x == name || x == "dep:" + name || exists r: string :: x == name + "/" + r
  }

  /** A dependency on the swarm crate for more than tests, and the name it goes by. */
  predicate SwarmAs(d: Dependency, name: string) {
    && d.name == "vesper-swarm" && !(d.kind.Some? && d.kind.value == "dev")
    && name == if d.rename.Some? then d.rename.value else "vesper-swarm"
  }

  /** Swarm is off by default and on with its feature, in terms of paths and names only. */
  ghost predicate OptIn(p: Package) {
    && (forall x :: Reaches(p.features, "default", x) ==> !NamesSwarm(x))
    && forall d, name :: d in p.dependencies && SwarmAs(d, name) ==>
         && d.optional
         && (forall x :: Reaches(p.features, "default", x) ==> !TurnsOn(x, name))
         && exists x :: Reaches(p.features, "swarm", x) && TurnsOn(x, name)
  }

  lemma SwarmNames(x: string)
    ensures IsSwarm(x) <==> NamesSwarm(x)
  {
    if EndsWith(x, "/swarm") {
      assert x == x[..|x| - 6] + "/swarm";
    }
  }

  lemma ActivatorNames(x: string, name: string)
    ensures Activates(name, x) <==> TurnsOn(x, name)
  {
    if name + "/" <= x {
      assert x == name + "/" + x[|name| + 1..];
    }
  }

  lemma OptInIff(p: Package)
    ensures SwarmIsOptIn(p) <==> OptIn(p)
  {
    forall x
      ensures IsSwarm(x) <==> NamesSwarm(x)
    {
      SwarmNames(x);
    }
    forall x, name
      ensures Activates(name, x) <==> TurnsOn(x, name)
    {
      ActivatorNames(x, name);
    }
    forall d
      ensures Guarded(d) <==> SwarmAs(d, LocalName(d))
    {
    }
  }

  method Validate(p: Package) returns (verdict: Verdict)
    ensures verdict == GateVerdict(p)
    ensures verdict == Accepted <==> OptIn(p)
  {
    AcceptedIff(p);
    OptInIff(p);
    var defaults := Closure(p.features, DEFAULT);
    if exists x :: x in defaults && IsSwarm(x) {
      return DefaultEnablesSwarm;
    }
    var ds := p.dependencies;
    for i := 0 to |ds|
      invariant DependencyVerdict(p.features, ds) == DependencyVerdict(p.features, ds[i..])
    {
      var d := ds[i];
      assert ds[i..][1..] == ds[i + 1..];
      if !Guarded(d) {
        continue;
      }
      var name := LocalName(d);
      if !d.optional || exists x :: x in defaults && Activates(name, x) {
        return NotDefaultOff;
      }
      var swarm := Closure(p.features, SWARM);
      if !exists x :: x in swarm && Activates(name, x) {
        return NotActivated;
      }
    }
    verdict := Accepted;
  }
}
