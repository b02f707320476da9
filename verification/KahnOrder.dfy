/** The production plugin registry (internal/infra/plugins/registry.go): registration, dependency
    bookkeeping, and Kahn's algorithm over indegree counters. */
module KahnOrder {
  import opened Utf8
  import opened Finite
  import opened PluginGraph

  datatype PluginInfo = PluginInfo(name: Name, source: Bytes, kind: Bytes)

  /** Go's map reads: a missing key is the zero value. */
  function Count(m: map<Name, int>, n: Name): int { if n in m then m[n] else 0 }

  function Listed(m: map<Name, seq<Name>>, n: Name): seq<Name> { if n in m then m[n] else [] }

  /** The registered dependencies of m that are not done yet. */
  ghost function Open(g: Graph, m: Name, done: set<Name>): set<Name> {
    set d | d in DepsOf(g, m) && d in g.names && d !in done
  }

  /** `graph` lists, for each plugin, those that depend on it. */
  ghost predicate Dependents(g: Graph, graph: map<Name, seq<Name>>) {
    forall d :: Distinct(Listed(graph, d)) && forall m :: m in Listed(graph, d) <==> Edge(g, m, d)
  }

  /** Each counter holds how many dependencies are open, and the ones at zero are placed. */
  ghost predicate Counted(g: Graph, indegree: map<Name, int>, done: set<Name>, placed: seq<Name>) {
    forall m :: m in g.names ==>
      Count(indegree, m) == |Open(g, m, done)| && (Count(indegree, m) == 0 <==> m in placed)
  }

  /** The counters while the dependents of n are being released: those in `seen` have been. */
  ghost predicate Releasing(g: Graph, indegree: map<Name, int>, done: set<Name>, seen: seq<Name>, placed: seq<Name>) {
    forall m :: m in g.names ==>
      && Count(indegree, m) == |Open(g, m, done)| - (if m in seen then 1 else 0)
      && (Count(indegree, m) == 0 <==> m in placed)
  }

  ghost predicate Progress(g: Graph, indegree: map<Name, int>, ordered: seq<Name>, queue: seq<Name>) {
    && Distinct(ordered + queue) && Elements(ordered + queue) <= g.names
    && DependenciesFirst(g, ordered)
    && Counted(g, indegree, Elements(ordered), ordered + queue)
  }

  /** Edges for the plugins in `upTo`, and for one more plugin those to the names in `seen`. */
  ghost predicate Listing(g: Graph, graph: map<Name, seq<Name>>, upTo: seq<Name>, name: Name, seen: seq<Name>) {
    forall d :: ListedRight(g, Listed(graph, d), d, upTo, name, seen)
  }

  ghost predicate ListedRight(g: Graph, list: seq<Name>, d: Name, upTo: seq<Name>, name: Name, seen: seq<Name>) {
    Distinct(list) && forall m :: m in list <==>
      (m in upTo && Edge(g, m, d)) || (m == name && d in seen && d in g.names)
  }

  /** Counters for the plugins in `upTo`, and for one more plugin over the names in `seen`. */
  ghost predicate Counting(g: Graph, indegree: map<Name, int>, upTo: seq<Name>, name: Name, seen: seq<Name>) {
    && (forall m :: m != name ==> Count(indegree, m) == if m in upTo then |Open(g, m, {})| else 0)
    && Count(indegree, name) == |RegisteredAmong(g, seen)|
  }

  ghost function RegisteredAmong(g: Graph, ds: seq<Name>): set<Name> {
    set d | d in ds && d in g.names
  }

  ghost predicate BuiltFor(g: Graph, graph: map<Name, seq<Name>>, indegree: map<Name, int>, upTo: seq<Name>) {
    && (forall d :: Distinct(Listed(graph, d)) && forall m :: m in Listed(graph, d) <==> m in upTo && Edge(g, m, d))
    && (forall m :: Count(indegree, m) == if m in upTo then |Open(g, m, {})| else 0)
  }

  ghost predicate BuildingOne(g: Graph, graph: map<Name, seq<Name>>, indegree: map<Name, int>,
                              upTo: seq<Name>, name: Name, seen: seq<Name>) {
    Listing(g, graph, upTo, name, seen) && Counting(g, indegree, upTo, name, seen)
  }

  lemma BuildStart(g: Graph, graph: map<Name, seq<Name>>, indegree: map<Name, int>, upTo: seq<Name>, name: Name)
    requires BuiltFor(g, graph, indegree, upTo) && name !in upTo
    ensures BuildingOne(g, graph, indegree, upTo, name, [])
  {
  }

  lemma BuildSkip(g: Graph, graph: map<Name, seq<Name>>, indegree: map<Name, int>,
                  upTo: seq<Name>, name: Name, seen: seq<Name>, dep: Name)
    requires BuildingOne(g, graph, indegree, upTo, name, seen) && dep !in g.names
    ensures BuildingOne(g, graph, indegree, upTo, name, seen + [dep])
  {
    hide Edge, Open;
    assert RegisteredAmong(g, seen + [dep]) == RegisteredAmong(g, seen);
    forall d ensures ListedRight(g, Listed(graph, d), d, upTo, name, seen + [dep]) {
      assert ListedRight(g, Listed(graph, d), d, upTo, name, seen);
    }
  }

  lemma BuildEdge(g: Graph, graph: map<Name, seq<Name>>, indegree: map<Name, int>,
                  upTo: seq<Name>, name: Name, seen: seq<Name>, dep: Name)
    requires BuildingOne(g, graph, indegree, upTo, name, seen)
    requires dep in g.names && dep !in seen && name !in upTo
    ensures BuildingOne(g, graph[dep := Listed(graph, dep) + [name]], indegree[name := Count(indegree, name) + 1],
                        upTo, name, seen + [dep])
  {
    hide Edge, Open;
    assert RegisteredAmong(g, seen + [dep]) == RegisteredAmong(g, seen) + {dep};
    var graph' := graph[dep := Listed(graph, dep) + [name]];
    forall d ensures ListedRight(g, Listed(graph', d), d, upTo, name, seen + [dep]) {
      assert ListedRight(g, Listed(graph, d), d, upTo, name, seen);
      ListOneMore(g, Listed(graph, d), d, upTo, name, seen, dep);
    }
  }

  lemma ListOneMore(g: Graph, list: seq<Name>, d: Name, upTo: seq<Name>, name: Name, seen: seq<Name>, dep: Name)
    requires ListedRight(g, list, d, upTo, name, seen) && dep in g.names && dep !in seen && name !in upTo
    ensures ListedRight(g, if d == dep then list + [name] else list, d, upTo, name, seen + [dep])
  {
  }

  lemma BuildFinish(g: Graph, graph: map<Name, seq<Name>>, indegree: map<Name, int>,
                    upTo: seq<Name>, name: Name, deps: seq<Name>)
    requires BuildingOne(g, graph, indegree, upTo, name, deps) && deps == DepsOf(g, name) && name in g.names
    ensures BuiltFor(g, graph, indegree, upTo + [name])
  {
    assert Open(g, name, {}) == RegisteredAmong(g, deps);
    forall d ensures Distinct(Listed(graph, d))
      ensures forall m :: m in Listed(graph, d) <==> m in upTo + [name] && Edge(g, m, d) {
      assert ListedRight(g, Listed(graph, d), d, upTo, name, deps);
    }
  }

  lemma OneFewer(g: Graph, m: Name, done: set<Name>, n: Name)
    requires n !in done
    ensures Edge(g, m, n) ==> |Open(g, m, done + {n})| == |Open(g, m, done)| - 1
    ensures m in g.names && n in g.names && !Edge(g, m, n) ==> Open(g, m, done + {n}) == Open(g, m, done)
  {
    if Edge(g, m, n) {
      assert Open(g, m, done + {n}) == Open(g, m, done) - {n};
    }
  }

  lemma Released(g: Graph, indegree: map<Name, int>, done: set<Name>, n: Name, dependents: seq<Name>, placed: seq<Name>)
    requires Releasing(g, indegree, done, dependents, placed)
    requires n in g.names && n !in done && forall m :: m in dependents <==> Edge(g, m, n)
    ensures Counted(g, indegree, done + {n}, placed)
  {
    forall m | m in g.names ensures Count(indegree, m) == |Open(g, m, done + {n})| {
      OneFewer(g, m, done, n);
    }
  }

  /** A plugin without open dependencies may come next. */
  lemma NextInOrder(g: Graph, ordered: seq<Name>, n: Name)
    requires DependenciesFirst(g, ordered) && |Open(g, n, Elements(ordered))| == 0
    ensures DependenciesFirst(g, ordered + [n])
  {
    forall d | Edge(g, n, d) ensures d in ordered {
      assert d !in Open(g, n, Elements(ordered));
    }
    OneMoreInOrder(g, ordered, n);
  }

  /** With nothing left to place, every plugin left out waits for another one left out. */
  lemma NothingPlaced(g: Graph, indegree: map<Name, int>, ordered: seq<Name>, m: Name)
    requires Counted(g, indegree, Elements(ordered), ordered) && m in g.names && m !in ordered
    ensures LeadsInto(g, m, g.names - Elements(ordered))
  {
    assert |Open(g, m, Elements(ordered))| > 0;
    var d :| d in Open(g, m, Elements(ordered));
    assert Edge(g, m, d);
  }

  class Registry {
    var plugins: map<Name, PluginInfo>
    var pluginOrder: seq<Name>
    var pluginDeps: map<Name, seq<Name>>

    ghost predicate Valid()
      reads this
    {
      && Distinct(pluginOrder) && Elements(pluginOrder) == plugins.Keys
      && pluginDeps.Keys <= plugins.Keys
      && forall n :: n in pluginDeps ==> Distinct(pluginDeps[n])
    }

    ghost function Dependencies(): Graph
      reads this
    {
      Graph(Elements(pluginOrder), pluginDeps)
    }

    constructor ()
      ensures Valid() && pluginOrder == [] && pluginDeps == map[] && plugins == map[]
    {
      plugins, pluginOrder, pluginDeps := map[], [], map[];
    }

    /** Registers the plugin unless the name is taken, then records the owners of what it decorates. */
    method AddPlugin(info: PluginInfo, owners: seq<Name>)
      requires Valid()
      modifies this
      ensures Valid()
      ensures info.name in plugins
      ensures old(info.name in plugins) ==> plugins == old(plugins) && pluginOrder == old(pluginOrder)
      ensures old(info.name !in plugins) ==>
        plugins == old(plugins)[info.name := info] && pluginOrder == old(pluginOrder) + [info.name]
      ensures forall n :: n != info.name ==> DepsOf(Dependencies(), n) == old(DepsOf(Dependencies(), n))
      ensures forall d :: d in DepsOf(Dependencies(), info.name) <==>
        d in old(DepsOf(Dependencies(), info.name)) || (d in owners && d != [])
    {
      EnsurePlugin(info);
      for i := 0 to |owners|
        invariant Valid() && info.name in plugins
        invariant plugins == old(plugins)[info.name := plugins[info.name]]
        invariant old(info.name in plugins) ==> plugins == old(plugins) && pluginOrder == old(pluginOrder)
        invariant old(info.name !in plugins) ==>
          plugins == old(plugins)[info.name := info] && pluginOrder == old(pluginOrder) + [info.name]
        invariant forall n :: n != info.name ==> DepsOf(Dependencies(), n) == old(DepsOf(Dependencies(), n))
        invariant forall d :: d in DepsOf(Dependencies(), info.name) <==>
          d in old(DepsOf(Dependencies(), info.name)) || (d in owners[..i] && d != [])
      {
        AddDepend(info.name, owners[i]);
        assert owners[..i + 1] == owners[..i] + [owners[i]];
      }
      assert owners[..|owners|] == owners;
    }

    method EnsurePlugin(info: PluginInfo)
      requires Valid()
      modifies this`plugins, this`pluginOrder
      ensures Valid() && info.name in plugins
      ensures old(info.name in plugins) ==> plugins == old(plugins) && pluginOrder == old(pluginOrder)
      ensures old(info.name !in plugins) ==>
        plugins == old(plugins)[info.name := info] && pluginOrder == old(pluginOrder) + [info.name]
    {
      if info.name in plugins {
        return;
      }
      assert info.name !in Elements(pluginOrder);
      plugins := plugins[info.name := info];
      pluginOrder := pluginOrder + [info.name];
    }

    method AddDepend(pluginName: Name, depend: Name)
      requires Valid() && pluginName in plugins
      modifies this`pluginDeps
      ensures Valid()
      ensures var deps := old(DepsOf(Dependencies(), pluginName));
        pluginDeps == if depend == [] || depend in deps then old(pluginDeps)
                      else old(pluginDeps)[pluginName := deps + [depend]]
    {
      if depend == [] {
        return;
      }
      var deps := Listed(pluginDeps, pluginName);
      if depend in deps {
        return;
      }
      pluginDeps := pluginDeps[pluginName := deps + [depend]];
    }

    /** Kahn's algorithm: the order holds exactly the plugins that reach no dependency cycle, each
        once and after its dependencies, and the rest is reported alphabetically. */
    method SortedPluginOrder() returns (ordered: seq<Name>, skipped: seq<Name>)
      requires Valid()
      ensures IsOrder(Dependencies(), ordered)
      ensures IsSkipped(Dependencies(), skipped)
    {
      var graph, indegree := BuildGraph();
      var queue := ZeroIndegreeQueue(indegree);
      ghost var g := Dependencies();
      ordered := [];
      Started(g, indegree, queue);
      hide *;
      while queue != []
        invariant Progress(g, indegree, ordered, queue)
        decreases |g.names| - |ordered|
      {
        var n := queue[0];
        StepFacts(g, ordered, queue, indegree);
        DependentsOf(g, graph, n);
        indegree, queue := Release(g, n, Listed(graph, n), indegree, ordered, queue[1..]);
        ordered := ordered + [n];
      }
      Settled(g, indegree, ordered);
      skipped := CollectCycles(indegree, ordered);
    }

    static lemma Started(g: Graph, indegree: map<Name, int>, queue: seq<Name>)
      requires Distinct(queue) && Elements(queue) <= g.names && Counted(g, indegree, {}, queue)
      ensures Progress(g, indegree, [], queue)
    {
      assert [] + queue == queue && Elements<Name>([]) == {};
    }

    static lemma DependentsOf(g: Graph, graph: map<Name, seq<Name>>, n: Name)
      requires Dependents(g, graph)
      ensures Distinct(Listed(graph, n)) && forall m :: m in Listed(graph, n) <==> Edge(g, m, n)
    {
    }

    static lemma Settled(g: Graph, indegree: map<Name, int>, ordered: seq<Name>)
      requires Progress(g, indegree, ordered, [])
      ensures IsOrder(g, ordered) && Counted(g, indegree, Elements(ordered), ordered)
    {
      assert ordered + [] == ordered;
      forall m | m in g.names && m !in ordered ensures LeadsInto(g, m, g.names - Elements(ordered)) {
        NothingPlaced(g, indegree, ordered, m);
      }
      OrderSettles(g, ordered);
    }

    /** Facts about the head of the queue. */
    static lemma StepFacts(g: Graph, ordered: seq<Name>, queue: seq<Name>, indegree: map<Name, int>)
      requires queue != [] && Progress(g, indegree, ordered, queue)
      ensures var n, placed := queue[0], ordered + [queue[0]] + queue[1..];
        && n in g.names && n !in Elements(ordered) && |ordered| < |g.names|
        && DependenciesFirst(g, ordered + [n])
        && Distinct(placed) && Elements(placed) <= g.names
        && Releasing(g, indegree, Elements(ordered), [], placed)
    {
      var all, n := ordered + queue, queue[0];
      assert all == ordered + [n] + queue[1..];
      assert all[|ordered|] == n && n in Elements(all);
      assert forall i :: 0 <= i < |ordered| ==> all[i] == ordered[i];
      DistinctFits(all, g.names);
      NextInOrder(g, ordered, n);
    }

    /** The inner loop: every dependent of n has one open dependency less, and joins the queue when
        that was the last. */
    method Release(ghost g: Graph, n: Name, dependents: seq<Name>, indegree0: map<Name, int>,
                   ghost ordered: seq<Name>, queue0: seq<Name>)
      returns (indegree: map<Name, int>, queue: seq<Name>)
      requires n in g.names && n !in Elements(ordered) && DependenciesFirst(g, ordered + [n])
      requires Distinct(dependents) && forall m :: m in dependents <==> Edge(g, m, n)
      requires Distinct(ordered + [n] + queue0) && Elements(ordered + [n] + queue0) <= g.names
      requires Releasing(g, indegree0, Elements(ordered), [], ordered + [n] + queue0)
      ensures Progress(g, indegree, ordered + [n], queue)
    {
      indegree, queue := indegree0, queue0;
      ghost var done := Elements(ordered);
      hide Releasing, Open, Edge;
      for k := 0 to |dependents|
        invariant Distinct(ordered + [n] + queue) && Elements(ordered + [n] + queue) <= g.names
        invariant Releasing(g, indegree, done, dependents[..k], ordered + [n] + queue)
      {
        var next := dependents[k];
        assert next in dependents && dependents[..k + 1] == dependents[..k] + [next];
        ReleaseOne(g, indegree, done, n, dependents[..k], next, ordered + [n] + queue);
        indegree := indegree[next := Count(indegree, next) - 1];
        if indegree[next] == 0 {
          assert ordered + [n] + queue + [next] == ordered + [n] + (queue + [next]);
          queue := queue + [next];
        }
      }
      assert dependents[..|dependents|] == dependents;
      Released(g, indegree, done, n, dependents, ordered + [n] + queue);
      assert Elements(ordered + [n]) == done + {n};
    }

    static lemma ReleaseOne(g: Graph, indegree: map<Name, int>, done: set<Name>, n: Name,
                            seen: seq<Name>, next: Name, placed: seq<Name>)
      requires Releasing(g, indegree, done, seen, placed) && next !in seen && Edge(g, next, n) && n !in done
      ensures next in g.names && next !in placed
      ensures var left := Count(indegree, next) - 1;
        Releasing(g, indegree[next := left], done, seen + [next], if left == 0 then placed + [next] else placed)
    {
      assert n in Open(g, next, done);
      hide Edge, Open;
    }

    method BuildGraph() returns (graph: map<Name, seq<Name>>, indegree: map<Name, int>)
      requires Valid()
      ensures Dependents(Dependencies(), graph)
      ensures forall m :: m in pluginOrder ==> Count(indegree, m) == |Open(Dependencies(), m, {})|
    {
      var registered := set n | n in pluginOrder;
      ghost var g := Dependencies();
      graph, indegree := map[], map[];
      assert registered == g.names && BuiltFor(g, graph, indegree, pluginOrder[..0]);
      for i := 0 to |pluginOrder|
        invariant BuiltFor(g, graph, indegree, pluginOrder[..i])
      {
        hide *;
        var name := pluginOrder[i];
        var deps := Listed(pluginDeps, name);
        ghost var upTo := pluginOrder[..i];
        RegisteredAt(i);
        BuildStart(g, graph, indegree, upTo, name);
        for j := 0 to |deps|
          invariant BuildingOne(g, graph, indegree, upTo, name, deps[..j])
        {
          var dep := deps[j];
          NewInPrefix(deps, j);
          if dep in registered {
            BuildEdge(g, graph, indegree, upTo, name, deps[..j], dep);
            graph := graph[dep := Listed(graph, dep) + [name]];
            indegree := indegree[name := Count(indegree, name) + 1];
          } else {
            BuildSkip(g, graph, indegree, upTo, name, deps[..j], dep);
          }
        }
        assert deps[..|deps|] == deps;
        BuildFinish(g, graph, indegree, upTo, name, deps);
      }
      assert pluginOrder[..|pluginOrder|] == pluginOrder;
    }

    static lemma NewInPrefix(s: seq<Name>, j: nat)
      requires Distinct(s) && j < |s|
      ensures s[j] !in s[..j] && s[..j + 1] == s[..j] + [s[j]]
    {
    }

    lemma RegisteredAt(i: nat)
      requires Valid() && i < |pluginOrder|
      ensures var name := pluginOrder[i];
        && name in Dependencies().names && Distinct(Listed(pluginDeps, name))
        && Listed(pluginDeps, name) == DepsOf(Dependencies(), name)
        && name !in pluginOrder[..i] && pluginOrder[..i + 1] == pluginOrder[..i] + [name]
    {
    }

    method ZeroIndegreeQueue(indegree: map<Name, int>) returns (queue: seq<Name>)
      requires Valid()
      requires forall m :: m in pluginOrder ==> Count(indegree, m) == |Open(Dependencies(), m, {})|
      ensures Distinct(queue) && Elements(queue) <= Elements(pluginOrder)
      ensures Counted(Dependencies(), indegree, {}, queue)
    {
      queue := [];
      for i := 0 to |pluginOrder|
        invariant Distinct(queue)
        invariant forall m :: m in queue <==> m in pluginOrder[..i] && Count(indegree, m) == 0
      {
        var name := pluginOrder[i];
        assert name !in pluginOrder[..i] && pluginOrder[..i + 1] == pluginOrder[..i] + [name];
        if Count(indegree, name) == 0 {
          queue := queue + [name];
        }
      }
      assert pluginOrder[..|pluginOrder|] == pluginOrder;
    }

    method CollectCycles(indegree: map<Name, int>, ordered: seq<Name>) returns (skipped: seq<Name>)
      requires Valid() && IsOrder(Dependencies(), ordered)
      requires Counted(Dependencies(), indegree, Elements(ordered), ordered)
      ensures IsSkipped(Dependencies(), skipped)
    {
      if |ordered| == |plugins| {
        NoneSkipped(Dependencies(), ordered);
        return [];
      }
      ghost var g := Dependencies();
      assert plugins.Keys == g.names;
      hide *;
      var found := StillCounting(plugins.Keys, indegree);
      skipped := SortNames(found);
      Skipped(g, indegree, ordered, found);
    }

    /** The plugins whose counter is still positive, in whatever order the map yields them. */
    static method StillCounting(registered: set<Name>, indegree: map<Name, int>) returns (found: seq<Name>)
      ensures Distinct(found)
      ensures forall n :: n in found <==> n in registered && Count(indegree, n) > 0
    {
      found := [];
      var todo := registered;
      while todo != {}
        invariant todo <= registered && Distinct(found)
        invariant forall n :: n in found <==> n in registered - todo && Count(indegree, n) > 0
      {
        var name :| name in todo;
        if Count(indegree, name) > 0 {
          found := found + [name];
        }
        todo := todo - {name};
      }
    }

    static lemma NoneSkipped(g: Graph, ordered: seq<Name>)
      requires IsOrder(g, ordered) && |ordered| == |g.names|
      ensures IsSkipped(g, [])
    {
      hide ReachesCycle, DependenciesFirst;
      assert Elements(ordered) <= g.names;
      DistinctFits(ordered, g.names);
      assert forall n :: n in g.names ==> n in Elements(ordered);
    }

    static lemma Skipped(g: Graph, indegree: map<Name, int>, ordered: seq<Name>, found: seq<Name>)
      requires IsOrder(g, ordered) && Counted(g, indegree, Elements(ordered), ordered)
      requires Distinct(found) && forall n :: n in found <==> n in g.names && Count(indegree, n) > 0
      ensures IsSkipped(g, SortNames(found))
    {
      SortNamesSorts(found);
      PermutedDistinct(found, SortNames(found));
      hide SortNames, ReachesCycle, Open;
      assert forall n :: n in found <==> n in g.names && ReachesCycle(g, n);
    }
  }
}
