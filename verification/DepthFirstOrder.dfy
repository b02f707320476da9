/** The registry of the plugin test kit (pkg/plugintest/registry.go), which orders plugins by a
    three-colour depth-first search instead, and its agreement with production. */
module DepthFirstOrder {
  import opened Finite
  import opened PluginGraph
  import opened KahnOrder

  const IN_PROGRESS := 1
  const FINISHED := 2

  /** Each name of the path depends on the next, which need not be registered. */
  ghost predicate Links(g: Graph, path: seq<Name>) {
    forall i, j :: 0 <= i && j == i + 1 && j < |path| ==> path[j] in DepsOf(g, path[i])
  }

  ghost predicate Closed(g: Graph, universe: set<Name>) {
    forall n, d :: n in universe && d in DepsOf(g, n) ==> d in universe
  }

  /** If the last name of the path depends on something, all of it is registered and is a walk. */
  lemma LinksAreWalk(g: Graph, path: seq<Name>)
    requires g.deps.Keys <= g.names && path != [] && Links(g, path) && DepsOf(g, path[|path| - 1]) != []
    ensures Walk(g, path) && path[|path| - 1] in g.names
  {
    forall i: nat | i < |path| ensures path[i] in g.names {
      if i + 1 < |path| {
        assert path[i + 1] in DepsOf(g, path[i]);
      }
    }
    forall i: nat | i + 1 < |path| ensures Step(g, path, i) {
      assert path[i + 1] in DepsOf(g, path[i]);
    }
  }

  /** The variables that the recursive closure captures. */
  class Search {
    const deps: map<Name, seq<Name>>
    const registered: set<Name>
    var visited: map<Name, int>
    var cycle: set<Name>
    var ordered: seq<Name>

    ghost function G(): Graph { Graph(registered, deps) }

    /** Finished and found to reach no cycle. */
    ghost predicate Clear(n: Name)
      reads this
    {
      Count(visited, n) == FINISHED && n !in cycle
    }

    /** `path` leads from the root of the search to the plugin whose dependencies are being visited. */
    ghost predicate OnPath(path: seq<Name>)
      reads this
    {
      && Distinct(path)
      && (forall n :: n in path <==> Count(visited, n) == IN_PROGRESS)
      && (forall n :: n in visited ==> visited[n] == IN_PROGRESS || visited[n] == FINISHED)
      && Links(G(), path)
    }

    ghost predicate ClearUpTo(names: seq<Name>, j: nat)
      reads this
    {
      j <= |names| && forall k :: 0 <= k < j ==> Clear(names[k])
    }

    ghost predicate Valid()
      reads this
    {
      && deps.Keys <= registered
      && (forall n, d :: Clear(n) && d in DepsOf(G(), n) ==> Clear(d))
      && (forall n :: n in cycle ==> n in registered && Count(visited, n) == FINISHED && ReachesCycle(G(), n))
      && Distinct(ordered) && DependenciesFirst(G(), ordered)
      && (forall n :: n in ordered <==> n in registered && Clear(n))
    }

    constructor (deps: map<Name, seq<Name>>, registered: set<Name>)
      requires deps.Keys <= registered
      ensures this.deps == deps && this.registered == registered
      ensures Valid() && OnPath([]) && visited == map[]
    {
      this.deps, this.registered := deps, registered;
      visited, cycle, ordered := map[], {}, [];
    }

    /** The closure. It answers whether a cycle is reached from `name` or closed by it; the proof
        carries the path and a finite set closed under dependencies. */
    method Visit(name: Name, ghost path: seq<Name>, ghost universe: set<Name>) returns (inCycle: bool)
      requires Valid() && OnPath(path)
      requires name in universe && visited.Keys <= universe
      requires Closed(G(), universe)
      requires path != [] ==> name in DepsOf(G(), path[|path| - 1])
      modifies this
      ensures Valid() && OnPath(path)
      ensures old(visited.Keys) + {name} <= visited.Keys <= universe
      ensures forall n :: old(Clear(n)) ==> Clear(n)
      ensures !inCycle ==> Clear(name)
      ensures inCycle ==> name in cycle || name in path
      decreases universe - visited.Keys, 0
    {
      assert Count(visited, name) == IN_PROGRESS ==> name in path;
      assert name in visited ==> Count(visited, name) == IN_PROGRESS || Count(visited, name) == FINISHED;
      assert forall d :: d in Listed(deps, name) ==> d in universe && d in DepsOf(G(), name);
      hide Valid, OnPath, ReachesCycle, Closed, DepsOf;
      if Count(visited, name) == FINISHED {
        return name in cycle;
      }
      if Count(visited, name) == IN_PROGRESS {
        return true;
      }
      Enter(name, path);
      inCycle := false;
      var mine := Listed(deps, name);
      ghost var here := path + [name];
      assert ClearUpTo(mine, 0);
      hide ClearUpTo;
      for j := 0 to |mine|
        invariant Valid() && OnPath(here)
        invariant old(visited.Keys) + {name} <= visited.Keys <= universe
        invariant forall n :: old(Clear(n)) ==> Clear(n)
        invariant !inCycle ==> ClearUpTo(mine, j)
        invariant inCycle ==> name in registered && ReachesCycle(G(), name)
      {
        inCycle := Follow(name, mine, j, here, universe, inCycle);
      }
      Leave(name, path, inCycle);
    }

    /** One round of the closure's loop. */
    method Follow(name: Name, mine: seq<Name>, j: nat, ghost here: seq<Name>, ghost universe: set<Name>, inCycle0: bool)
      returns (inCycle: bool)
      requires Valid() && OnPath(here) && here != [] && here[|here| - 1] == name
      requires j < |mine| && mine[j] in universe && visited.Keys <= universe && Closed(G(), universe)
      requires mine[j] in DepsOf(G(), name)
      requires !inCycle0 ==> ClearUpTo(mine, j)
      requires inCycle0 ==> name in registered && ReachesCycle(G(), name)
      modifies this
      ensures Valid() && OnPath(here)
      ensures old(visited.Keys) <= visited.Keys <= universe
      ensures forall n :: old(Clear(n)) ==> Clear(n)
      ensures !inCycle ==> ClearUpTo(mine, j + 1)
      ensures inCycle ==> name in registered && ReachesCycle(G(), name)
      decreases universe - visited.Keys, 1
    {
      hide Valid, OnPath, ReachesCycle, Closed, DepsOf;
      inCycle := inCycle0;
      var dep := mine[j];
      var found := Visit(dep, here, universe);
      if found {
        CycleFound(name, dep, here);
        inCycle := true;
      }
    }

    method Enter(name: Name, ghost path: seq<Name>)
      requires Valid() && OnPath(path) && name !in visited
      requires path != [] ==> name in DepsOf(G(), path[|path| - 1])
      modifies this`visited
      ensures Valid() && OnPath(path + [name]) && visited == old(visited)[name := IN_PROGRESS]
      ensures forall n :: Clear(n) <==> old(Clear(n))
    {
      assert name !in path;
      visited := visited[name := IN_PROGRESS];
      forall n, d | Clear(n) && d in DepsOf(G(), n) ensures Clear(d) {
        assert old(Clear(n)) && old(Clear(d));
      }
      assert forall n :: Clear(n) <==> old(Clear(n));
    }

    method Leave(name: Name, ghost path: seq<Name>, inCycle: bool)
      requires Valid() && OnPath(path + [name])
      requires !inCycle ==> ClearUpTo(Listed(deps, name), |Listed(deps, name)|)
      requires inCycle ==> name in registered && ReachesCycle(G(), name)
      modifies this
      ensures Valid() && OnPath(path) && visited == old(visited)[name := FINISHED]
      ensures forall n :: old(Clear(n)) ==> Clear(n)
      ensures !inCycle ==> Clear(name)
      ensures inCycle ==> name in cycle
    {
      PathPrefix(G(), path, name);
      assert Listed(deps, name) == DepsOf(G(), name);
      visited := visited[name := FINISHED];
      if inCycle {
        cycle := cycle + {name};
      } else if name in registered {
        assert forall d :: Edge(G(), name, d) ==> old(Clear(d)) && d in ordered;
        OneMoreInOrder(G(), ordered, name);
        ordered := ordered + [name];
      }
      assert forall n :: Clear(n) <==> old(Clear(n)) || (n == name && !inCycle);
      forall n, d | Clear(n) && d in DepsOf(G(), n) ensures Clear(d) {
        assert n != name ==> old(Clear(n)) && old(Clear(d));
      }
    }

    lemma CycleFound(name: Name, dep: Name, here: seq<Name>)
      requires Valid() && OnPath(here) && here != [] && here[|here| - 1] == name
      requires dep in DepsOf(G(), name) && (dep in cycle || dep in here)
      ensures name in registered && ReachesCycle(G(), name)
    {
      LinksAreWalk(G(), here);
      if dep in cycle {
        ReachesThrough(G(), name, dep);
      } else {
        var i: nat :| i < |here| && here[i] == dep;
        assert Walk(G(), here);
        RegisteredOnWalk(G(), here, i);
        BackEdge(G(), here, i);
      }
    }
  }

  lemma PathPrefix(g: Graph, path: seq<Name>, name: Name)
    requires Distinct(path + [name]) && Links(g, path + [name])
    ensures Distinct(path) && Links(g, path) && name !in path
    ensures forall n :: n in path + [name] <==> n in path || n == name
  {
    var all := path + [name];
    assert forall i :: 0 <= i < |path| ==> path[i] == all[i];
    assert all[|path|] == name;
  }

  lemma RegisteredOnWalk(g: Graph, p: seq<Name>, i: nat)
    requires Walk(g, p) && i < |p| && p[|p| - 1] in g.names
    ensures p[i] in g.names
  {
    assert i + 1 < |p| ==> Step(g, p, i);
  }

  function NamesOf(plugins: seq<PluginInfo>): seq<Name> {
    seq(|plugins|, i requires 0 <= i < |plugins| => plugins[i].name)
  }

  lemma NamesElements(plugins: seq<PluginInfo>)
    ensures (set p | p in plugins :: p.name) == Elements(NamesOf(plugins))
  {
    forall n | n in NamesOf(plugins) ensures exists p :: p in plugins && p.name == n {
      var i :| 0 <= i < |plugins| && NamesOf(plugins)[i] == n;
      assert plugins[i] in plugins;
    }
    forall p | p in plugins ensures p.name in NamesOf(plugins) {
      var i :| 0 <= i < |plugins| && plugins[i] == p;
      assert NamesOf(plugins)[i] == p.name;
    }
  }

  /** A name that reaches a cycle is reported as often as it was registered. */
  ghost function Reports(g: Graph, names: seq<Name>, n: Name): nat {
    if ReachesCycle(g, n) then multiset(names)[n] else 0
  }

  /** No name that reaches a cycle is registered twice. */
  ghost predicate CyclicOnce(g: Graph, names: seq<Name>) {
    forall n :: ReachesCycle(g, n) ==> multiset(names)[n] <= 1
  }

  class TestRegistry {
    var plugins: seq<PluginInfo>
    var pluginDeps: map<Name, seq<Name>>

    ghost function Names(): seq<Name>
      reads this
    {
      NamesOf(plugins)
    }

    ghost function Dependencies(): Graph
      reads this
    {
      Graph(Elements(Names()), pluginDeps)
    }

    ghost predicate Valid()
      reads this
    {
      pluginDeps.Keys <= Elements(Names())
    }

    constructor ()
      ensures Valid() && plugins == [] && pluginDeps == map[]
    {
      plugins, pluginDeps := [], map[];
    }

    method AddPlugin(info: PluginInfo)
      requires Valid()
      modifies this`plugins
      ensures Valid() && plugins == old(plugins) + [info] && Names() == old(Names()) + [info.name]
    {
      plugins := plugins + [info];
      assert Names() == old(Names()) + [info.name];
    }

    method AddDepend(pluginName: Name, depend: Name)
      requires Valid() && pluginName in Names()
      modifies this`pluginDeps
      ensures Valid()
      ensures var deps := old(DepsOf(Dependencies(), pluginName));
        pluginDeps == if depend == [] || depend in deps then old(pluginDeps)
                      else old(pluginDeps)[pluginName := deps + [depend]]
    {
      if depend == [] {
        return;
      }
      var deps := Listed(pluginDeps, pluginName);
      if depend in deps {
        return;
      }
      assert pluginName in Elements(Names());
      pluginDeps := pluginDeps[pluginName := deps + [depend]];
    }

    /** Depth-first ordering. A name registered twice is reported twice. */
    method SortedPluginOrder() returns (ordered: seq<Name>, skipped: seq<Name>)
      requires Valid()
      ensures IsOrder(Dependencies(), ordered)
      ensures Alphabetical(skipped)
      ensures forall n :: multiset(skipped)[n] == Reports(Dependencies(), Names(), n)
      ensures IsSkipped(Dependencies(), skipped) <==> CyclicOnce(Dependencies(), Names())
    {
      var registered := set p | p in plugins :: p.name;
      NamesElements(plugins);
      var search := new Search(pluginDeps, registered);
      skipped := VisitAll(search, plugins);
      ordered := search.ordered;
      ghost var g := Dependencies();
      AllVisited(search, Names());
      SortNamesSorts(skipped);
      hide *;
      skipped := SortNames(skipped);
      SkippedExactly(g, Names(), skipped);
    }

    /** The outer loop. */
    static method VisitAll(search: Search, plugins: seq<PluginInfo>) returns (skipped: seq<Name>)
      requires search.Valid() && search.OnPath([]) && search.visited == map[]
      requires search.registered == Elements(NamesOf(plugins))
      modifies search
      ensures search.Valid() && search.OnPath([])
      ensures forall n :: n in NamesOf(plugins) ==> n in search.visited
      ensures forall n :: multiset(skipped)[n] == Reports(search.G(), NamesOf(plugins), n)
    {
      ghost var g, names := search.G(), NamesOf(plugins);
      ghost var universe := Elements(names) + set n, d | n in search.deps && d in search.deps[n] :: d;
      skipped := [];
      for i := 0 to |plugins|
        invariant search.Valid() && search.OnPath([])
        invariant search.visited.Keys <= universe
        invariant forall n :: n in names[..i] ==> n in search.visited
        invariant forall n :: multiset(skipped)[n] == Reports(g, names[..i], n)
      {
        var name := plugins[i].name;
        assert names[i] == name && names[i] in Elements(names);
        assert names[..i + 1] == names[..i] + [name];
        hide Reports, ReachesCycle, DependenciesFirst;
        var inCycle := search.Visit(name, [], universe);
        Verdict(search, name);
        ReportOne(g, names[..i], name);
        if name in search.cycle {
          skipped := skipped + [name];
        }
      }
      assert names[..|plugins|] == names;
    }
  }

  lemma ReportOne(g: Graph, names: seq<Name>, name: Name)
    ensures forall n {:trigger Reports(g, names + [name], n)} ::
              Reports(g, names + [name], n) == Reports(g, names, n) + (if n == name && ReachesCycle(g, n) then 1 else 0)
  {
  }

  lemma AllVisited(search: Search, names: seq<Name>)
    requires search.Valid() && search.OnPath([]) && search.registered == Elements(names)
    requires forall n :: n in names ==> n in search.visited
    ensures IsOrder(search.G(), search.ordered)
  {
    forall n | n in search.registered ensures n in search.ordered <==> !ReachesCycle(search.G(), n) {
      Verdict(search, n);
    }
  }

  /** Between visits nothing is in progress, so every visited name is settled. */
  lemma Verdict(search: Search, n: Name)
    requires search.Valid() && search.OnPath([]) && n in search.visited
    ensures n in search.cycle || search.Clear(n)
    ensures n in search.registered ==> (n in search.ordered <==> n !in search.cycle)
    ensures n in search.registered ==> (n in search.cycle <==> ReachesCycle(search.G(), n))
  {
    assert Count(search.visited, n) == FINISHED;
    if n in search.ordered {
      OrderedReachesNoCycle(search.G(), search.ordered, n);
    }
  }

  lemma SkippedExactly(g: Graph, names: seq<Name>, skipped: seq<Name>)
    requires Elements(names) == g.names && Alphabetical(skipped)
    requires forall n :: multiset(skipped)[n] == Reports(g, names, n)
    ensures forall n :: n in skipped <==> n in g.names && ReachesCycle(g, n)
    ensures IsSkipped(g, skipped) <==> CyclicOnce(g, names)
  {
    hide ReachesCycle, Alphabetical;
    forall n ensures n in skipped <==> n in g.names && ReachesCycle(g, n) {
      assert n in skipped <==> n in multiset(skipped);
      assert n in g.names <==> n in multiset(names);
    }
    if CyclicOnce(g, names) {
      forall i, j | 0 <= i < j < |skipped| ensures skipped[i] != skipped[j] {
        TwiceCounted(skipped, i, j);
      }
    }
    if Distinct(skipped) {
      forall n | ReachesCycle(g, n) ensures multiset(names)[n] <= 1 {
        DistinctCount(skipped, n);
      }
    }
  }

  /** The two registries, holding the same dependencies, order the same plugins and skip the same
      names. The skipped lists are the same exactly if no name that reaches a cycle is registered
      twice with the test double. */
  method Agreement(production: Registry, test: TestRegistry)
    returns (o1: seq<Name>, s1: seq<Name>, o2: seq<Name>, s2: seq<Name>)
    requires production.Valid() && test.Valid()
    requires production.Dependencies() == test.Dependencies()
    ensures IsOrder(production.Dependencies(), o1) && IsOrder(production.Dependencies(), o2)
    ensures multiset(o1) == multiset(o2)
    ensures forall n :: n in s1 <==> n in s2
    ensures s1 == s2 <==> CyclicOnce(test.Dependencies(), test.Names())
  {
    ghost var g, names := production.Dependencies(), test.Names();
    o1, s1 := production.SortedPluginOrder();
    o2, s2 := test.SortedPluginOrder();
    SkippedExactly(g, names, s2);
    hide *;
    assert forall n :: n in s1 <==> n in s2;
    OrdersAlike(g, o1, o2);
    if IsSkipped(g, s2) {
      OrdersAgree(g, o1, s1, o2, s2);
    }
  }

  lemma OrdersAlike(g: Graph, o1: seq<Name>, o2: seq<Name>)
    requires IsOrder(g, o1) && IsOrder(g, o2)
    ensures multiset(o1) == multiset(o2)
  {
    DistinctMultiset(o1, o2);
  }

  /** The smallest disagreement: a plugin that depends on itself, registered twice. */
  method RegisteredTwice(info: PluginInfo) returns (s1: seq<Name>, s2: seq<Name>)
    requires info.name != []
    ensures s1 == [info.name] && s2 == [info.name, info.name]
  {
    s1 := SkippedOnce(info);
    s2 := SkippedTwice(info);
  }

  method SkippedOnce(info: PluginInfo) returns (skipped: seq<Name>)
    requires info.name != []
    ensures skipped == [info.name]
  {
    var name := info.name;
    var production := new Registry();
    production.AddPlugin(info, [name]);
    production.AddPlugin(info, [name]);
    ghost var g := production.Dependencies();
    assert g.names == {name} && Edge(g, name, name);
    var ordered;
    ordered, skipped := production.SortedPluginOrder();
    hide *;
    OnlySkipped(g, name, skipped);
  }

  lemma OnlySkipped(g: Graph, name: Name, skipped: seq<Name>)
    requires g.names == {name} && Edge(g, name, name) && IsSkipped(g, skipped)
    ensures skipped == [name]
  {
    SelfCycle(g, name);
    assert name in skipped;
    assert forall n :: n in Elements(skipped) ==> n in skipped;
    DistinctFits(skipped, {name});
  }

  method SkippedTwice(info: PluginInfo) returns (skipped: seq<Name>)
    requires info.name != []
    ensures skipped == [info.name, info.name]
  {
    var name := info.name;
    var test := new TestRegistry();
    test.AddPlugin(info);
    test.AddPlugin(info);
    test.AddDepend(name, name);
    ghost var g, names := test.Dependencies(), test.Names();
    assert names == [name, name] && Edge(g, name, name);
    SelfCycle(g, name);
    var ordered;
    ordered, skipped := test.SortedPluginOrder();
    hide ReachesCycle, IsOrder, IsSkipped, Alphabetical, CyclicOnce, DepsOf;
    Repeated(skipped, name, 2);
  }

  lemma SelfCycle(g: Graph, n: Name)
    requires Edge(g, n, n)
    ensures ReachesCycle(g, n)
  {
    var p := [n, n];
    assert Step(g, p, 0);
    assert Lasso(g, p, 0);
  }

  lemma {:induction false} Repeated(s: seq<Name>, name: Name, k: nat)
    requires forall n :: multiset(s)[n] == if n == name then k else 0
    ensures s == seq(k, _ => name)
  {
    assert multiset(s) == multiset(seq(k, _ => name)) by {
      Copies(name, k);
    }
    assert forall i :: 0 <= i < |s| ==> s[i] in multiset(s);
    assert |s| == |multiset(s)| == k;
  }

  lemma {:induction false} Copies(name: Name, k: nat)
    ensures multiset(seq(k, _ => name)) == multiset{}[name := k]
  {
    if k > 0 {
      Copies(name, k - 1);
      assert seq(k, _ => name) == seq(k - 1, _ => name) + [name];
    }
  }
}
