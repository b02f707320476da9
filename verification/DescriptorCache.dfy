/** The generation-stamped view of the dynamic registry that lookups share
    (internal/app/grpc_registration.go, dynamicFiles), in every interleaving with mutations. */
module DescriptorCache {
  import opened Wrappers
  import opened DescriptorRegistry

  // A lookup reads the generation under the registry's lock, then takes the cache's own lock, and
  // rebuilds from a fresh snapshot when the label differs from what it read. Each of these is one
  // step; any number of lookups and mutations interleave. `from` is a history variable: the
  // generation whose files a view was built from.

  // ----- Building a view: files that clash with one registered earlier are dropped

  ghost predicate ClashFree(v: set<File>) {
    forall a, b :: a in v && b in v && a != b ==> !Clash(a, b)
  }

  ghost predicate ClashesWith(f: File, v: set<File>) {
    exists a :: a in v && Clash(f, a)
  }

  /** What registering the files one by one, in any order, can leave. */
  ghost predicate IsView(v: set<File>, files: Files) {
    && v <= files.Values
    && ClashFree(v)
    && forall f :: f in files.Values && f !in v ==> ClashesWith(f, v)
  }

  lemma ViewOfCompatibleFiles(v: set<File>, files: Files)
    requires IsView(v, files) && ClashFree(files.Values)
    ensures v == files.Values
  {
    forall f | f in files.Values ensures f in v {
      assert !ClashesWith(f, v - {f});
      assert f !in v ==> v - {f} == v;
    }
  }

  method BuildView(files: Files) returns (v: set<File>)
    ensures IsView(v, files)
    ensures forall f :: f in v ==> f in files.Values
    ensures forall f, g :: f in v && g in v && f != g ==> !Clash(f, g)
    ensures forall f :: f in files.Values && f !in v ==> exists g :: g in v && Clash(f, g)
  {
    v := {};
    var todo := files.Values;
    while todo != {}
      invariant todo <= files.Values && v <= files.Values - todo && ClashFree(v)
      invariant forall f :: f in files.Values - todo && f !in v ==> ClashesWith(f, v)
    {
      var f :| f in todo;
      ghost var before := v;
      if forall a :: a in v ==> !Clash(f, a) {
        assert forall a :: a in v ==> !Clash(a, f);
        v := v + {f};
      } else {
        assert ClashesWith(f, v);
      }
      todo := todo - {f};
      hide Clash;
      forall h | h in files.Values - todo && h !in v ensures ClashesWith(h, v) {
        assert ClashesWith(h, before);
        var a :| a in before && Clash(h, a);
        assert a in v;
      }
    }
  }

  /** There is always a view. */
  lemma {:induction false} SomeView(files: set<File>) returns (v: set<File>)
    ensures v <= files && ClashFree(v) && forall f :: f in files && f !in v ==> ClashesWith(f, v)
  {
    v := {};
    if files != {} {
      var f :| f in files;
      var w := SomeView(files - {f});
      v := if ClashesWith(f, w) then w else w + {f};
      hide Clash;
      ClashIsMutual(f, w);
      forall h | h in files && h !in v ensures ClashesWith(h, v) {
        if h != f {
          var a :| a in w && Clash(h, a);
          assert a in v;
        }
      }
    }
  }

  lemma ClashIsMutual(f: File, v: set<File>)
    ensures forall a :: a in v ==> (Clash(f, a) <==> Clash(a, f))
  {
  }

  // ----- The machine

  type Tid = nat

  datatype Cached = Cached(view: set<File>, stamp: nat, from: nat)

  datatype Phase =
    | Idle
    | Called(begin: nat)
    | HasGen(begin: nat, gen: nat)
    | Holding(begin: nat, gen: nat)
    | Snapped(begin: nat, gen: nat, snap: Files, from: nat)
    | Returned(begin: nat, view: set<File>, from: nat)

  type History = h: seq<Files> | h != [] witness [map[]]

  datatype State = State(
    history: History,
    cached: Option<Cached>,
    mutex: Option<Tid>,
    phase: map<Tid, Phase>)

  function Gen(s: State): nat {
    |s.history| - 1
  }

  function At(s: State, t: Tid): Phase {
    if t in s.phase then s.phase[t] else Idle
  }

  datatype Action =
    | Mutate(later: seq<Files>)
    | Call(t: Tid)
    | ReadGeneration(t: Tid)
    | Acquire(t: Tid)
    | Hit(t: Tid)
    | Snapshot(t: Tid)
    | Store(t: Tid, view: set<File>)

  ghost predicate Init(s: State) {
    |s.history| == 1 && s.cached.None? && s.mutex.None? && s.phase == map[]
  }

  function Moved(s: State, t: Tid, p: Phase): map<Tid, Phase> {
    s.phase[t := p]
  }

  ghost predicate Next(s: State, a: Action, s': State) {
    match a
    case Mutate(later) =>
      s' == s.(history := s.history + later)
    case Call(t) =>
      && (At(s, t).Idle? || At(s, t).Returned?)
      && s' == s.(phase := Moved(s, t, Called(Gen(s))))
    case ReadGeneration(t) =>
      && At(s, t).Called?
      && s' == s.(phase := Moved(s, t, HasGen(At(s, t).begin, Gen(s))))
    case Acquire(t) =>
      && At(s, t).HasGen? && s.mutex.None?
      && s' == s.(mutex := Some(t), phase := Moved(s, t, Holding(At(s, t).begin, At(s, t).gen)))
    case Hit(t) =>
      && At(s, t).Holding? && s.cached.Some? && s.cached.value.stamp == At(s, t).gen
      && s' == s.(mutex := None,
                  phase := Moved(s, t, Returned(At(s, t).begin, s.cached.value.view, s.cached.value.from)))
    case Snapshot(t) =>
      && At(s, t).Holding? && !(s.cached.Some? && s.cached.value.stamp == At(s, t).gen)
      && s' == s.(phase := Moved(s, t, Snapped(At(s, t).begin, At(s, t).gen, s.history[Gen(s)], Gen(s))))
    case Store(t, view) =>
      && At(s, t).Snapped? && IsView(view, At(s, t).snap)
      && s' == s.(cached := Some(Cached(view, At(s, t).gen, At(s, t).from)), mutex := None,
                  phase := Moved(s, t, Returned(At(s, t).begin, view, At(s, t).from)))
  }

  // ----- What every step keeps

  /** A view comes from a generation no older than its label. */
  ghost predicate LabelHolds(s: State) {
    s.cached.Some? ==>
      var c := s.cached.value;
      c.stamp <= c.from < |s.history| && IsView(c.view, s.history[c.from])
  }

  ghost predicate PhaseHolds(s: State, t: Tid) {
    match At(s, t)
    case Idle => true
    case Called(begin) => begin < |s.history|
    case HasGen(begin, gen) => begin <= gen < |s.history|
    case Holding(begin, gen) => begin <= gen < |s.history| && s.mutex == Some(t)
    case Snapped(begin, gen, snap, from) =>
      begin <= gen <= from < |s.history| && snap == s.history[from] && s.mutex == Some(t)
    case Returned(begin, view, from) =>
      begin <= from < |s.history| && IsView(view, s.history[from])
  }

  predicate HoldsLock(s: State, t: Tid) {
    At(s, t).Holding? || At(s, t).Snapped?
  }

  ghost predicate Inv(s: State) {
    LabelHolds(s) && (forall t :: PhaseHolds(s, t)) && (s.mutex.Some? ==> HoldsLock(s, s.mutex.value))
  }

  lemma {:induction false} NextKeepsInv(s: State, a: Action, s': State)
    requires Inv(s) && Next(s, a, s')
    ensures Inv(s') && s.history <= s'.history
  {
    hide IsView;
    if a.Store? {
      assert PhaseHolds(s, a.t);
    }
    assert LabelHolds(s');
    forall u ensures PhaseHolds(s', u) {
      assert PhaseHolds(s, u);
      match a
      case Mutate(_) =>
      case Call(t) => assert PhaseHolds(s, t);
      case ReadGeneration(t) => assert PhaseHolds(s, t);
      case Acquire(t) => assert PhaseHolds(s, t);
      case Hit(t) => assert PhaseHolds(s, t);
      case Snapshot(t) => assert PhaseHolds(s, t);
      case Store(t, _) => assert PhaseHolds(s, t);
    }
  }

  // ----- Runs

  ghost predicate StepAt(ss: seq<State>, acts: seq<Action>, i: nat)
    requires |ss| == |acts| + 1 && i < |acts|
  {
    Next(ss[i], acts[i], ss[i + 1])
  }

  ghost predicate Run(ss: seq<State>, acts: seq<Action>) {
    && |ss| == |acts| + 1 && Init(ss[0])
    && forall i: nat :: i < |acts| ==> StepAt(ss, acts, i)
  }

  /** Thread t starts a call at step i, and no other one before state j. */
  ghost predicate CallsOnce(acts: seq<Action>, t: Tid, i: nat, j: nat) {
    i < j <= |acts| && acts[i] == Call(t) && forall k :: i < k < j ==> acts[k] != Call(t)
  }

  lemma {:induction false} RunKeepsInv(ss: seq<State>, acts: seq<Action>, j: nat)
    requires Run(ss, acts) && j < |ss|
    ensures forall k: nat :: k <= j ==> Inv(ss[k])
  {
    if j == 0 {
      assert forall t :: PhaseHolds(ss[0], t);
    } else {
      RunKeepsInv(ss, acts, j - 1);
      assert StepAt(ss, acts, j - 1);
      NextKeepsInv(ss[j - 1], acts[j - 1], ss[j]);
    }
  }

  lemma {:induction false} HistoryGrows(ss: seq<State>, acts: seq<Action>, i: nat, j: nat)
    requires Run(ss, acts) && i <= j < |ss|
    ensures ss[i].history <= ss[j].history
    decreases j
  {
    if i < j {
      HistoryGrows(ss, acts, i, j - 1);
      RunKeepsInv(ss, acts, j);
      assert StepAt(ss, acts, j - 1);
      NextKeepsInv(ss[j - 1], acts[j - 1], ss[j]);
    }
  }

  /** A lookup that is called at state i and has returned by state j answers with a view of some
      generation that was current in between: never one older than the call, never one to come. */
  lemma LookupIsCurrent(ss: seq<State>, acts: seq<Action>, i: nat, j: nat, t: Tid)
    requires Run(ss, acts) && i < j < |ss|
    requires CallsOnce(acts, t, i, j) && At(ss[j], t).Returned?
    ensures var r := At(ss[j], t);
      && Gen(ss[i]) <= r.from <= Gen(ss[j]) && IsView(r.view, ss[j].history[r.from])
      && r.view <= ss[j].history[r.from].Values
      && (forall f, g :: f in r.view && g in r.view && f != g ==> !Clash(f, g))
      && (forall f :: f in ss[j].history[r.from].Values && f !in r.view ==> exists g :: g in r.view && Clash(f, g))
  {
    hide Clash;
    RunKeepsInv(ss, acts, j);
    HistoryGrows(ss, acts, i, j);
    BeginIsKept(ss, acts, i, j, t);
    assert PhaseHolds(ss[j], t);
  }

  lemma {:induction false} BeginIsKept(ss: seq<State>, acts: seq<Action>, i: nat, j: nat, t: Tid)
    requires Run(ss, acts) && i < j < |ss| && CallsOnce(acts, t, i, j)
    ensures !At(ss[j], t).Idle? && At(ss[j], t).begin == Gen(ss[i])
    decreases j
  {
    if i + 1 < j {
      BeginIsKept(ss, acts, i, j - 1, t);
      assert StepAt(ss, acts, j - 1);
    } else {
      assert StepAt(ss, acts, i);
    }
  }

  /** While nothing is mutated, a lookup answers with the current files: all of them, if they are
      compatible. */
  lemma QuietLookup(ss: seq<State>, acts: seq<Action>, i: nat, j: nat, t: Tid)
    requires Run(ss, acts) && i < j < |ss|
    requires CallsOnce(acts, t, i, j) && At(ss[j], t).Returned?
    requires ss[j].history == ss[i].history
    ensures var files := ss[j].history[|ss[j].history| - 1];
      IsView(At(ss[j], t).view, files) && (ClashFree(files.Values) ==> At(ss[j], t).view == files.Values)
  {
    LookupIsCurrent(ss, acts, i, j, t);
    var files := ss[j].history[|ss[j].history| - 1];
    if ClashFree(files.Values) {
      ViewOfCompatibleFiles(At(ss[j], t).view, files);
    }
  }

  /** Lookups see no less than lookups that returned before they were called. */
  lemma LookupsAreMonotone(ss: seq<State>, acts: seq<Action>, h: nat, i: nat, j: nat, t: Tid, u: Tid)
    requires Run(ss, acts) && h <= i < j < |ss|
    requires At(ss[h], t).Returned?
    requires CallsOnce(acts, u, i, j) && At(ss[j], u).Returned?
    ensures At(ss[h], t).from <= At(ss[j], u).from
  {
    RunKeepsInv(ss, acts, h);
    HistoryGrows(ss, acts, h, i);
    assert PhaseHolds(ss[h], t);
    LookupIsCurrent(ss, acts, i, j, u);
  }

  /** A label equal to the current generation means the cached view is one of the current files. */
  lemma FreshLabelMeansFreshView(ss: seq<State>, acts: seq<Action>, j: nat)
    requires Run(ss, acts) && j < |ss| && ss[j].cached.Some?
    ensures var s, c := ss[j], ss[j].cached.value;
      && c.stamp <= c.from <= |s.history| - 1
      && (c.stamp == |s.history| - 1 ==> IsView(c.view, s.history[|s.history| - 1]))
  {
    RunKeepsInv(ss, acts, j);
  }

  /** The cache lock is held exactly while a lookup compares or rebuilds, one lookup at a time. */
  lemma RebuildsExclude(ss: seq<State>, acts: seq<Action>, j: nat, t: Tid)
    requires Run(ss, acts) && j < |ss|
    ensures At(ss[j], t).Holding? || At(ss[j], t).Snapped? <==> ss[j].mutex == Some(t)
  {
    RunKeepsInv(ss, acts, j);
    assert PhaseHolds(ss[j], t);
  }

  ghost predicate Enabled(s: State, a: Action) {
    exists s' :: Next(s, a, s')
  }

  /** A lookup that holds the lock answers from the cache exactly if the label is the generation that
      it has read, and rebuilds otherwise. */
  lemma HitsExactly(ss: seq<State>, acts: seq<Action>, j: nat, t: Tid)
    requires Run(ss, acts) && j < |ss| && At(ss[j], t).Holding?
    ensures var hits := ss[j].cached.Some? && ss[j].cached.value.stamp == At(ss[j], t).gen;
      (Enabled(ss[j], Hit(t)) <==> hits) && (Enabled(ss[j], Snapshot(t)) <==> !hits)
  {
    var s, p := ss[j], At(ss[j], t);
    if s.cached.Some? && s.cached.value.stamp == p.gen {
      var c := s.cached.value;
      assert Next(s, Hit(t), s.(mutex := None, phase := Moved(s, t, Returned(p.begin, c.view, c.from))));
    } else {
      var snapped := Snapped(p.begin, p.gen, s.history[Gen(s)], Gen(s));
      assert Next(s, Snapshot(t), s.(phase := Moved(s, t, snapped)));
    }
  }

  ghost predicate CanStep(s: State, t: Tid) {
    || Enabled(s, ReadGeneration(t)) || Enabled(s, Acquire(t)) || Enabled(s, Hit(t)) || Enabled(s, Snapshot(t))
    || exists view :: Enabled(s, Store(t, view))
  }

  /** Lookups never block each other for good: one can always be called, and one that is under way can
      go on itself, or waits for the lock while its holder can go on. */
  lemma NoDeadlock(ss: seq<State>, acts: seq<Action>, j: nat, t: Tid)
    requires Run(ss, acts) && j < |ss|
    ensures if At(ss[j], t).Idle? || At(ss[j], t).Returned? then Enabled(ss[j], Call(t))
      else CanStep(ss[j], t) || (At(ss[j], t).HasGen? && exists u :: HoldsLock(ss[j], u) && CanStep(ss[j], u))
  {
    var s := ss[j];
    RunKeepsInv(ss, acts, j);
    match At(s, t)
    case Idle | Returned(_, _, _) => assert Next(s, Call(t), s.(phase := Moved(s, t, Called(Gen(s)))));
    case Called(begin) =>
      assert Next(s, ReadGeneration(t), s.(phase := Moved(s, t, HasGen(begin, Gen(s)))));
    case HasGen(begin, gen) =>
      if s.mutex.None? {
        assert Next(s, Acquire(t), s.(mutex := Some(t), phase := Moved(s, t, Holding(begin, gen))));
      } else {
        HolderGoesOn(ss, acts, j, s.mutex.value);
      }
    case _ => HolderGoesOn(ss, acts, j, t);
  }

  lemma HolderGoesOn(ss: seq<State>, acts: seq<Action>, j: nat, u: Tid)
    requires Run(ss, acts) && j < |ss| && HoldsLock(ss[j], u)
    ensures CanStep(ss[j], u)
  {
    var s := ss[j];
    match At(s, u)
    case Holding(_, _) => HitsExactly(ss, acts, j, u);
    case Snapped(begin, gen, snap, from) =>
      var view := SomeView(snap.Values);
      assert Next(s, Store(u, view), s.(cached := Some(Cached(view, gen, from)), mutex := None,
                                        phase := Moved(s, u, Returned(begin, view, from))));
    case _ =>
  }
}
