/**
 The affected-component part of `verify_cross_contracts`: from the components to be acted on, the loop follows every
 dependency from provider to consumer until nothing changes; the projection must list exactly what that reaches.
 */
module ConsumerClosure {
  datatype Dependency = Dependency(provider: string, consumer: string)

  // ---------------------------------------------------------------- the statement: reachability

  /** A chain of components, each a consumer of the one before it. */
  ghost predicate IsChain(deps: seq<Dependency>, chain: seq<string>) {
    |chain| >= 1 && forall i :: 0 <= i < |chain| - 1 ==> Dependency(chain[i], chain[i + 1]) in deps
  }

  ghost predicate Reaches(deps: seq<Dependency>, from: set<string>, c: string) {
    exists chain :: IsChain(deps, chain) && chain[0] in from && chain[|chain| - 1] == c
  }

  /** `s` is what can be reached, no more and no less. */
  ghost predicate IsReach(deps: seq<Dependency>, from: set<string>, s: set<string>) {
    forall c :: c in s <==> Reaches(deps, from, c)
  }

  ghost predicate Closed(deps: seq<Dependency>, s: set<string>) {
    forall d :: d in deps && d.provider in s ==> d.consumer in s
  }

  // ---------------------------------------------------------------- the loop

  function Consumers(deps: seq<Dependency>): set<string> { set i | 0 <= i < |deps| :: deps[i].consumer }

  /** One `for` pass: it sees the components it has itself just added. */
  method Pass(deps: seq<Dependency>, ghost start: set<string>, affected: set<string>) returns (r: set<string>)
    requires start <= affected && forall c :: c in affected ==> Reaches(deps, start, c)
    ensures affected <= r <= affected + Consumers(deps)
    ensures forall c :: c in r ==> Reaches(deps, start, c)
    ensures r == affected ==> Closed(deps, affected)
  {
    hide Reaches;
    r := affected;
    for i := 0 to |deps|
      invariant affected <= r <= affected + Consumers(deps)
      invariant forall c :: c in r ==> Reaches(deps, start, c)
      invariant r == affected ==> forall j :: 0 <= j < i && deps[j].provider in affected ==>
                deps[j].consumer in affected
    {
      if deps[i].provider in r {
        ReachesStep(deps, start, deps[i]);
        r := r + {deps[i].consumer};
      }
    }
  }

  /** The `while True` loop: exactly the reachable components, whatever the order of the dependencies. */
  method Affected(deps: seq<Dependency>, actuated: set<string>) returns (r: set<string>)
    ensures IsReach(deps, actuated, r)
  {
    r := actuated;
    forall c | c in actuated ensures Reaches(deps, actuated, c) { ReachesSelf(deps, actuated, c); }
    while true
      invariant actuated <= r <= actuated + Consumers(deps)
      invariant forall c :: c in r ==> Reaches(deps, actuated, c)
      decreases actuated + Consumers(deps) - r
    {
      var before := |r|;
      ghost var was := r;
      r := Pass(deps, actuated, r);
      if |r| == before {
        SameSize(was, r);
        break;
      }
      assert r != was;
      ghost var added :| added in r && added !in was;
      assert added in actuated + Consumers(deps) - was;
    }
    forall c | Reaches(deps, actuated, c) ensures c in r { ClosedContains(deps, actuated, r, c); }
  }

  lemma SameSize(a: set<string>, b: set<string>)
    requires a <= b && |a| == |b|
    ensures a == b
  {
    assert |b - a| == |b| - |a|;
  }

  lemma ReachesSelf(deps: seq<Dependency>, from: set<string>, c: string)
    requires c in from
    ensures Reaches(deps, from, c)
  {
    assert IsChain(deps, [c]) && [c][0] == c && [c][|[c]| - 1] == c;
  }

  lemma ReachesStep(deps: seq<Dependency>, from: set<string>, d: Dependency)
    requires d in deps && Reaches(deps, from, d.provider)
    ensures Reaches(deps, from, d.consumer)
  {
    var chain :| IsChain(deps, chain) && chain[0] in from && chain[|chain| - 1] == d.provider;
    var longer := chain + [d.consumer];
    assert d == Dependency(d.provider, d.consumer);
    assert IsChain(deps, longer) && longer[0] in from && longer[|longer| - 1] == d.consumer;
  }

  // ---------------------------------------------------------------- least closed set

  lemma {:induction false} ChainStaysInside(deps: seq<Dependency>, s: set<string>, chain: seq<string>, n: nat)
    requires Closed(deps, s) && IsChain(deps, chain) && chain[0] in s && n < |chain|
    ensures chain[n] in s
  {
    if n > 0 {
      ChainStaysInside(deps, s, chain, n - 1);
      assert Dependency(chain[n - 1], chain[n - 1 + 1]) in deps;
    }
  }

  /** Every closed set around the start contains everything reachable from it. */
  lemma ClosedContains(deps: seq<Dependency>, from: set<string>, s: set<string>, c: string)
    requires from <= s && Closed(deps, s) && Reaches(deps, from, c)
    ensures c in s
  {
    var chain :| IsChain(deps, chain) && chain[0] in from && chain[|chain| - 1] == c;
    ChainStaysInside(deps, s, chain, |chain| - 1);
  }

  /** What `Affected` returns is the least closed set that contains the actuated components. */
  lemma AffectedIsLeastClosed(deps: seq<Dependency>, actuated: set<string>, r: set<string>)
    requires IsReach(deps, actuated, r)
    ensures actuated <= r && Closed(deps, r)
    ensures forall s :: actuated <= s && Closed(deps, s) ==> r <= s
  {
    forall c | c in actuated ensures c in r { ReachesSelf(deps, actuated, c); }
    forall d | d in deps && d.provider in r ensures d.consumer in r { ReachesStep(deps, actuated, d); }
    forall s | actuated <= s && Closed(deps, s) ensures r <= s {
      forall c | c in r ensures c in s { ClosedContains(deps, actuated, s, c); }
    }
  }

  /** Only the set of dependencies matters, not their order or multiplicity. */
  lemma OrderDoesNotMatter(deps: seq<Dependency>, deps': seq<Dependency>, from: set<string>, c: string)
    requires forall d :: d in deps <==> d in deps'
    ensures Reaches(deps, from, c) <==> Reaches(deps', from, c)
  {
    if Reaches(deps, from, c) {
      var chain :| IsChain(deps, chain) && chain[0] in from && chain[|chain| - 1] == c;
      assert IsChain(deps', chain);
    }
    if Reaches(deps', from, c) {
      var chain :| IsChain(deps', chain) && chain[0] in from && chain[|chain| - 1] == c;
      assert IsChain(deps, chain);
    }
  }

  /** The closure of a union is the union of the closures: acting on more never affects anything else. */
  lemma UnionOfClosures(deps: seq<Dependency>, a: set<string>, b: set<string>, c: string)
    ensures Reaches(deps, a + b, c) <==> Reaches(deps, a, c) || Reaches(deps, b, c)
  {
    if Reaches(deps, a + b, c) {
      var chain :| IsChain(deps, chain) && chain[0] in a + b && chain[|chain| - 1] == c;
    }
    if Reaches(deps, a, c) {
      var chain :| IsChain(deps, chain) && chain[0] in a && chain[|chain| - 1] == c;
    }
    if Reaches(deps, b, c) {
      var chain :| IsChain(deps, chain) && chain[0] in b && chain[|chain| - 1] == c;
    }
  }

  // ---------------------------------------------------------------- the projection built from the closure

  datatype Component = Component(id: string, hostedOn: string)

  datatype Obligation = Obligation(id: string, component: string)

  function Select<T(!new)>(items: seq<T>, keep: T -> bool): (kept: seq<T>)
    ensures forall x :: x in kept <==> x in items && keep(x)
  {
    if items == [] then []
    else
      var rest := Select(items[1..], keep);
      if keep(items[0]) then [items[0]] + rest else rest
  }

  /** `boundary_dependencies`: either end is affected. */
  function Boundary(deps: seq<Dependency>, affected: set<string>): seq<Dependency> {
    Select(deps, (d: Dependency) => d.consumer in affected || d.provider in affected)
  }

  /** In an exact projection every boundary dependency has its consumer inside: the boundary is crossed inwards only. */
  lemma BoundaryConsumersAreAffected(deps: seq<Dependency>, actuated: set<string>, affected: set<string>, d: Dependency)
    requires IsReach(deps, actuated, affected)
    ensures d in Boundary(deps, affected) <==> d in deps && d.consumer in affected
  {
    if d in deps && d.provider in affected { ReachesStep(deps, actuated, d); }
  }

  /**
   The exact projection leaves nothing affected unverified: an obligation is selected exactly when its component can be
   reached from an actuated one.
   */
  lemma ObligationsCoverTheClosure(deps: seq<Dependency>, actuated: set<string>, affected: set<string>,
      all: seq<Obligation>, o: Obligation)
    requires IsReach(deps, actuated, affected)
    ensures o in Select(all, (x: Obligation) => x.component in affected) <==>
            o in all && Reaches(deps, actuated, o.component)
  {}

  /** Affected targets are exactly the hosts of affected components. */
  lemma TargetsHostTheClosure(deps: seq<Dependency>, actuated: set<string>, affected: set<string>,
      components: seq<Component>, target: string)
    requires IsReach(deps, actuated, affected)
    ensures var hosted := Select(components, (x: Component) => x.id in affected);
            (exists x :: x in hosted && x.hostedOn == target)
            <==> exists x :: x in components && Reaches(deps, actuated, x.id) && x.hostedOn == target
  {
    var hosted := Select(components, (x: Component) => x.id in affected);
    forall x ensures x in hosted <==> x in components && Reaches(deps, actuated, x.id) {}
  }

  datatype Cut = Cut(targets: seq<string>, components: seq<Component>, dependencies: seq<Dependency>,
      obligations: seq<Obligation>)

  datatype Porter = Porter(
    actuationComponents: set<string>, actuationTargets: set<string>,
    affectedComponents: seq<Component>, affectedTargets: seq<string>,
    boundary: seq<Dependency>, verification: seq<Obligation>)

  function Hosts(components: seq<Component>): set<string> { set i | 0 <= i < |components| :: components[i].hostedOn }

  /** The projection that belongs to a set of affected components, list by list and in the order of the cut. */
  predicate ProjectionOf(cut: Cut, porter: Porter, affected: set<string>) {
    var components := Select(cut.components, (x: Component) => x.id in affected);
    && porter.actuationTargets == Hosts(Select(cut.components, (x: Component) => x.id in porter.actuationComponents))
    && porter.affectedComponents == components
    && porter.affectedTargets == Select(cut.targets, t => t in Hosts(components))
    && porter.boundary == Boundary(cut.dependencies, affected)
    && porter.verification == Select(cut.obligations, (x: Obligation) => x.component in affected)
  }

  // ---------------------------------------------------------------- the projection, said without the loops

  /** `kept` holds, in their order, exactly the items that satisfy `keep`. */
  ghost predicate Keeps<T(!new)>(items: seq<T>, keep: T -> bool, kept: seq<T>) {
    if items == [] then kept == []
    else
      var n, last := |items| - 1, items[|items| - 1];
      if keep(last) then kept != [] && kept[|kept| - 1] == last && Keeps(items[..n], keep, kept[..|kept| - 1])
      else Keeps(items[..n], keep, kept)
  }

  lemma {:induction false} SelectSnoc<T(!new)>(items: seq<T>, x: T, keep: T -> bool)
    ensures Select(items + [x], keep) == Select(items, keep) + if keep(x) then [x] else []
  {
    if items == [] {
      assert (items + [x])[1..] == [];
    } else {
      assert (items + [x])[0] == items[0] && (items + [x])[1..] == items[1..] + [x];
      SelectSnoc(items[1..], x, keep);
    }
  }

  /** A list is the selection exactly when it keeps the right items in their order. */
  lemma {:induction false} SelectIffKeeps<T(!new)>(items: seq<T>, keep: T -> bool, kept: seq<T>)
    ensures kept == Select(items, keep) <==> Keeps(items, keep, kept)
    decreases |items|
  {
    hide Select;
    if items == [] {
      SelectNothing(keep);
    } else {
      var n, last := |items| - 1, items[|items| - 1];
      assert items == items[..n] + [last];
      SelectSnoc(items[..n], last, keep);
      if keep(last) {
        if kept != [] {
          SelectIffKeeps(items[..n], keep, kept[..|kept| - 1]);
          assert kept == kept[..|kept| - 1] + [kept[|kept| - 1]];
        }
      } else {
        SelectIffKeeps(items[..n], keep, kept);
      }
    }
  }

  lemma SelectNothing<T(!new)>(keep: T -> bool)
    ensures Select([], keep) == []
  {}

  /** Only what `keep` says of the items matters. */
  lemma {:induction false} SelectAgrees<T(!new)>(items: seq<T>, keep: T -> bool, other: T -> bool)
    requires forall x :: x in items ==> keep(x) == other(x)
    ensures Select(items, keep) == Select(items, other)
  {
    if items != [] { SelectAgrees(items[1..], keep, other); }
  }

  /** What a projection must say, from reachability alone. */
  ghost predicate Projects(cut: Cut, porter: Porter) {
    var reached := (c: string) => Reaches(cut.dependencies, porter.actuationComponents, c);
    && (forall t :: t in porter.actuationTargets <==>
          exists x :: x in cut.components && x.id in porter.actuationComponents && x.hostedOn == t)
    && Keeps(cut.components, (x: Component) => reached(x.id), porter.affectedComponents)
    && Keeps(cut.targets, (t: string) => exists x :: x in cut.components && reached(x.id) && x.hostedOn == t,
             porter.affectedTargets)
    && Keeps(cut.dependencies, (d: Dependency) => reached(d.consumer), porter.boundary)
    && Keeps(cut.obligations, (o: Obligation) => reached(o.component), porter.verification)
  }

  /** Selecting by the set that was computed is keeping by reachability. */
  lemma SelectsTheReached<T(!new)>(items: seq<T>, keep: T -> bool, reached: T -> bool, kept: seq<T>)
    requires forall x :: x in items ==> keep(x) == reached(x)
    ensures kept == Select(items, keep) <==> Keeps(items, reached, kept)
  {
    hide Select, Keeps;
    SelectAgrees(items, keep, reached);
    SelectIffKeeps(items, reached, kept);
  }

  lemma ProjectionIsReached(cut: Cut, porter: Porter, affected: set<string>)
    requires IsReach(cut.dependencies, porter.actuationComponents, affected)
    ensures ProjectionOf(cut, porter, affected) <==> Projects(cut, porter)
  {
    hide Reaches, Keeps, Select;
    var reached := (c: string) => Reaches(cut.dependencies, porter.actuationComponents, c);
    var components := Select(cut.components, (x: Component) => x.id in affected);
    SelectsTheReached(cut.components, (x: Component) => x.id in affected, (x: Component) => reached(x.id),
                      porter.affectedComponents);
    SelectsTheReached(cut.obligations, (o: Obligation) => o.component in affected,
                      (o: Obligation) => reached(o.component), porter.verification);
    forall t ensures t in Hosts(components) <==> exists x :: x in cut.components && reached(x.id) && x.hostedOn == t {
      HostsOf(cut.components, (x: Component) => x.id in affected, t);
    }
    SelectsTheReached(cut.targets, t => t in Hosts(components),
                      (t: string) => exists x :: x in cut.components && reached(x.id) && x.hostedOn == t,
                      porter.affectedTargets);
    forall d | d in cut.dependencies
      ensures (d.consumer in affected || d.provider in affected) <==> reached(d.consumer)
    {
      if d.provider in affected { ReachesStep(cut.dependencies, porter.actuationComponents, d); }
    }
    SelectsTheReached(cut.dependencies, (d: Dependency) => d.consumer in affected || d.provider in affected,
                      (d: Dependency) => reached(d.consumer), porter.boundary);
    var acting := Hosts(Select(cut.components, (x: Component) => x.id in porter.actuationComponents));
    forall t ensures t in acting <==>
                     exists x :: x in cut.components && x.id in porter.actuationComponents && x.hostedOn == t {
      HostsOf(cut.components, (x: Component) => x.id in porter.actuationComponents, t);
    }
  }

  lemma HostsOf(components: seq<Component>, keep: Component -> bool, t: string)
    ensures t in Hosts(Select(components, keep)) <==> exists x :: x in components && keep(x) && x.hostedOn == t
  {
    var kept := Select(components, keep);
    if t in Hosts(kept) {
      var i :| 0 <= i < |kept| && kept[i].hostedOn == t;
      assert kept[i] in kept;
    }
    forall x | x in components && keep(x) && x.hostedOn == t ensures t in Hosts(kept) {
      assert x in kept;
      var i :| 0 <= i < |kept| && kept[i] == x;
    }
  }

  /** A Porter projection is accepted exactly when it says what reachability in the cut requires. */
  method CheckPorter(cut: Cut, porter: Porter) returns (ok: bool)
    ensures ok <==> Projects(cut, porter)
  {
    hide ProjectionOf, Projects, Reaches;
    var affected := Affected(cut.dependencies, porter.actuationComponents);
    ok := ProjectionOf(cut, porter, affected);
    ProjectionIsReached(cut, porter, affected);
  }
}
