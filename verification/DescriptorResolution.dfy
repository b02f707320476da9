/** Resolving an uploaded descriptor set (decodeDescriptorFiles in internal/app/rest_descriptors.go). */
module DescriptorResolution {
  import opened Utf8
  import opened Wrappers
  import opened Finite
  import opened Subsequences
  import opened DescriptorRegistry

  // Rounds over the files whose references are not there yet, until none is left or a round is in
  // vain. References are looked up among the files registered so far and then, for lack of them, among
  // the files linked into the program. The reference is the least set of files closed under "all
  // references resolved"; no order occurs in it. Registration also refuses files that clash, so
  // success needs both.

  /** The names that a file uses from other files, and the paths it imports. `wellFormed` stands
      for everything that building the file checks besides these. */
  datatype FileProto = FileProto(file: File, imports: set<Bytes>, uses: set<Bytes>, wellFormed: bool)

  datatype ResolveError = UnresolvedDeps | RegisterFailed(path: Bytes)

  function Paths(files: set<FileProto>): set<Bytes> {
    set f | f in files :: f.file.path
  }

  predicate Declares(files: set<FileProto>, name: Bytes) {
    exists g :: g in files && name in g.file.names
  }

  predicate DeclaresImported(files: set<FileProto>, name: Bytes, imports: set<Bytes>) {
    exists g :: g in files && name in g.file.names && g.file.path in imports
  }

  /** A name is looked up in the registry first, wherever it is declared there, and must turn out
      to come from an imported path. */
  predicate Resolves(name: Bytes, imports: set<Bytes>, registered: set<FileProto>, global: set<FileProto>) {
    if Declares(registered, name) then DeclaresImported(registered, name, imports)
    else DeclaresImported(global, name, imports)
  }

  /** protodesc.NewFile succeeds. A file's own names come before all others. */
  predicate Buildable(f: FileProto, registered: set<FileProto>, global: set<FileProto>) {
    && f.wellFormed && f.imports <= Paths(registered) + Paths(global)
    && forall n :: n in f.uses && n !in f.file.names ==> Resolves(n, f.imports, registered, global)
  }

  // ----- Reference

  ghost predicate Closed(s: set<FileProto>, files: set<FileProto>, global: set<FileProto>) {
    forall f :: f in files && Buildable(f, s, global) ==> f in s
  }

  /** f lies in every closed set. */
  ghost predicate Resolvable(f: FileProto, files: set<FileProto>, global: set<FileProto>) {
    forall s :: s <= files && Closed(s, files, global) ==> f in s
  }

  ghost predicate ClashFree(m: multiset<FileProto>) {
    && (forall f :: m[f] <= 1)
    && forall f, g :: f in m && g in m && f != g ==> !Clash(f.file, g.file)
  }

  /** A file at this path clashes with another entry of the input. */
  ghost predicate ClashAt(m: multiset<FileProto>, path: Bytes) {
    exists f, g :: f in m && g in m - multiset{f} && f.file.path == path && Clash(f.file, g.file)
  }

  lemma ClashAtShows(m: multiset<FileProto>, path: Bytes)
    requires ClashAt(m, path)
    ensures !ClashFree(m)
  {
    hide Clash;
    var f, g :| f in m && g in m - multiset{f} && f.file.path == path && Clash(f.file, g.file);
    assert f == g ==> m[f] >= 2;
  }

  ghost predicate AllResolvable(files: set<FileProto>, global: set<FileProto>) {
    forall f :: f in files ==> Resolvable(f, files, global)
  }

  /** f finds a name in a linked-in file that it imports, until g is registered, which declares the
      name too and is not imported. */
  ghost predicate Takes(g: FileProto, f: FileProto, global: set<FileProto>) {
    exists n :: n in f.uses && n !in f.file.names && n in g.file.names && g.file.path !in f.imports
      && DeclaresImported(global, n, f.imports)
  }

  /** No file takes a name from another. Uploading a linked-in file again takes nothing. */
  ghost predicate Untaken(files: set<FileProto>, global: set<FileProto>) {
    forall g, f :: g in files && f in files ==> !Takes(g, f, global)
  }

  /** What can be built can still be built when more is registered, unless something takes a name
      from it. */
  lemma BuildableGrows(f: FileProto, s: set<FileProto>, t: set<FileProto>, global: set<FileProto>)
    requires s <= t && (forall g :: g in t ==> !Takes(g, f, global)) && Buildable(f, s, global)
    ensures Buildable(f, t, global)
  {
    assert Paths(s) <= Paths(t);
    forall n | n in f.uses && n !in f.file.names ensures Resolves(n, f.imports, t, global) {
      assert Resolves(n, f.imports, s, global);
      if !Declares(s, n) && Declares(t, n) {
        var g :| g in t && n in g.file.names;
        assert !Takes(g, f, global);
      }
    }
  }

  /** What can be built on resolvable files is resolvable. */
  lemma BuildableIsResolvable(f: FileProto, registered: set<FileProto>, files: set<FileProto>, global: set<FileProto>)
    requires f in files && Untaken(files, global) && Buildable(f, registered, global)
    requires forall g :: g in registered ==> Resolvable(g, files, global)
    ensures Resolvable(f, files, global)
  {
    forall s | s <= files && Closed(s, files, global) ensures f in s {
      assert registered <= s;
      BuildableGrows(f, registered, s, global);
    }
  }

  // ----- The rounds as functions

  predicate ClashesWith(f: FileProto, registered: set<FileProto>) {
    exists g :: g in registered && Clash(f.file, g.file)
  }

  datatype Round = Failed(path: Bytes) | Passed(next: seq<FileProto>, registered: set<FileProto>)

  /** One pass over the pending files, each seeing what was registered before it. */
  ghost function RoundOf(pending: seq<FileProto>, registered: set<FileProto>, global: set<FileProto>): (r: Round)
    ensures r.Passed? ==> |r.next| <= |pending|
  {
    if pending == [] then Passed([], registered)
    else
      var f, rest := pending[0], pending[1..];
      if !Buildable(f, registered, global) then Waiting(f, RoundOf(rest, registered, global))
      else if ClashesWith(f, registered) then Failed(f.file.path)
      else RoundOf(rest, registered + {f}, global)
  }

  function Waiting(f: FileProto, r: Round): Round {
    if r.Failed? then r else r.(next := [f] + r.next)
  }

  ghost function Decoded(pending: seq<FileProto>, registered: set<FileProto>, global: set<FileProto>):
    Result<set<FileProto>, ResolveError>
    decreases |pending|
  {
    if pending == [] then Ok(registered)
    else match RoundOf(pending, registered, global)
      case Failed(path) => Err(RegisterFailed(path))
      case Passed(next, grown) =>
        if |next| == |pending| then Err(UnresolvedDeps) else Decoded(next, grown, global)
  }

  // ----- What every step keeps

  /** Everything is either registered or pending, and what is registered does not clash and, if
      no file takes a name, is resolvable and can be built. */
  ghost predicate Progressing(input: multiset<FileProto>, registered: set<FileProto>, pending: multiset<FileProto>,
                              global: set<FileProto>) {
    && input == pending + multiset(registered)
    && ClashFree(multiset(registered))
    && (Untaken(Support(input), global) ==> forall f :: f in registered ==>
          Resolvable(f, Support(input), global) && Buildable(f, registered, global))
  }

  ghost function Support(m: multiset<FileProto>): set<FileProto> {
    set f | f in m
  }

  lemma Registers(input: multiset<FileProto>, registered: set<FileProto>, pending: multiset<FileProto>,
                  global: set<FileProto>, f: FileProto)
    requires Progressing(input, registered, pending, global) && f in pending
    requires Buildable(f, registered, global)
    ensures ClashesWith(f, registered) ==> ClashAt(input, f.file.path)
    ensures !ClashesWith(f, registered) ==> Progressing(input, registered + {f}, pending - multiset{f}, global)
  {
    hide Untaken, Resolvable, Buildable, ClashesWith, ClashFree;
    if ClashesWith(f, registered) {
      ClashShows(input, registered, pending, f);
    } else {
      GrowsClashFree(registered, f);
      if Untaken(Support(input), global) {
        StillResolvable(registered, f, Support(input), global);
      }
    }
  }

  lemma StillResolvable(registered: set<FileProto>, f: FileProto, files: set<FileProto>, global: set<FileProto>)
    requires Untaken(files, global) && f in files && registered <= files && Buildable(f, registered, global)
    requires forall g :: g in registered ==> Resolvable(g, files, global) && Buildable(g, registered, global)
    ensures forall g :: g in registered + {f} ==>
      Resolvable(g, files, global) && Buildable(g, registered + {f}, global)
  {
    hide Resolvable, Buildable;
    BuildableIsResolvable(f, registered, files, global);
    forall g | g in registered + {f} ensures Buildable(g, registered + {f}, global) {
      BuildableGrows(g, registered, registered + {f}, global);
    }
  }

  lemma ClashShows(input: multiset<FileProto>, registered: set<FileProto>, pending: multiset<FileProto>, f: FileProto)
    requires input == pending + multiset(registered) && f in pending && ClashesWith(f, registered)
    ensures ClashAt(input, f.file.path)
  {
    hide Clash;
    var g :| g in registered && Clash(f.file, g.file);
    assert f in input && g in input - multiset{f};
  }

  lemma GrowsClashFree(registered: set<FileProto>, f: FileProto)
    requires ClashFree(multiset(registered)) && !ClashesWith(f, registered)
    ensures f !in registered && multiset(registered + {f}) == multiset(registered) + multiset{f}
    ensures ClashFree(multiset(registered + {f}))
  {
    assert Clash(f.file, f.file);
    hide Clash;
    forall g | g in registered ensures !Clash(f.file, g.file) && !Clash(g.file, f.file) {
      assert Clash(f.file, g.file) <==> Clash(g.file, f.file);
    }
  }

  /** A round keeps the invariant, whatever else is still pending; a round in vain has met only
      files that cannot be built. */
  lemma {:induction false} RoundKeeps(input: multiset<FileProto>, registered: set<FileProto>, pending: seq<FileProto>,
                                      others: multiset<FileProto>, global: set<FileProto>)
    requires Progressing(input, registered, multiset(pending) + others, global)
    ensures var r := RoundOf(pending, registered, global);
      && (r.Failed? ==> ClashAt(input, r.path))
      && (r.Passed? ==> Progressing(input, r.registered, multiset(r.next) + others, global))
      && (r.Passed? && |r.next| == |pending| ==>
            r.registered == registered && r.next == pending && NoneBuildable(pending, registered, global))
    decreases |pending|
  {
    hide Progressing, Buildable, ClashFree, ClashesWith;
    if pending != [] {
      var f, rest := pending[0], pending[1..];
      assert pending == [f] + rest;
      assert multiset(pending) == multiset{f} + multiset(rest);
      if !Buildable(f, registered, global) {
        assert multiset(pending) + others == multiset(rest) + (others + multiset{f});
        RoundKeeps(input, registered, rest, others + multiset{f}, global);
        var r := RoundOf(rest, registered, global);
        if r.Passed? {
          assert multiset([f] + r.next) + others == multiset(r.next) + (others + multiset{f});
        }
      } else {
        Registers(input, registered, multiset(pending) + others, global, f);
        if !ClashesWith(f, registered) {
          assert multiset(pending) + others - multiset{f} == multiset(rest) + others;
          RoundKeeps(input, registered + {f}, rest, others, global);
        }
      }
    }
  }

  ghost predicate NoneBuildable(pending: seq<FileProto>, registered: set<FileProto>, global: set<FileProto>) {
    forall f :: f in pending ==> !Buildable(f, registered, global)
  }

  /** If nothing pending can be built, the registered files are closed, and all pending ones lie
      outside. */
  lemma Stuck(input: multiset<FileProto>, registered: set<FileProto>, pending: seq<FileProto>, global: set<FileProto>)
    requires Progressing(input, registered, multiset(pending), global) && pending != []
    requires NoneBuildable(pending, registered, global)
    ensures ClashFree(input) || Untaken(Support(input), global) ==> !AllResolvable(Support(input), global)
  {
    hide Buildable;
    if ClashFree(input) || Untaken(Support(input), global) {
      var f := pending[0];
      assert f in multiset(pending) && f in input;
      assert f !in registered;
      hide Untaken;
      forall g | g in Support(input) && Buildable(g, registered, global) ensures g in registered {
        assert g in multiset(pending) ==> g in pending;
      }
      assert Closed(registered, Support(input), global);
      assert !Resolvable(f, Support(input), global);
    }
  }

  /** What the outcome says about the whole input. */
  ghost predicate Outcome(input: multiset<FileProto>, global: set<FileProto>, r: Result<set<FileProto>, ResolveError>) {
    && (r.Ok? ==> r.value == Support(input) && ClashFree(input))
    && (r.Ok? && Untaken(Support(input), global) ==> AllResolvable(Support(input), global))
    && (r.Err? && r.error.UnresolvedDeps? && (ClashFree(input) || Untaken(Support(input), global)) ==>
          !AllResolvable(Support(input), global))
    && (r.Err? && r.error.RegisterFailed? ==> ClashAt(input, r.error.path) && !ClashFree(input))
  }

  lemma {:induction false} OutcomeFrom(input: multiset<FileProto>, registered: set<FileProto>, pending: seq<FileProto>,
                                       global: set<FileProto>)
    requires Progressing(input, registered, multiset(pending), global)
    ensures Outcome(input, global, Decoded(pending, registered, global))
    decreases |pending|
  {
    if pending == [] {
      assert input == multiset(registered);
    } else {
      var none: multiset<FileProto> := multiset{};
      assert multiset(pending) + none == multiset(pending);
      RoundKeeps(input, registered, pending, none, global);
      var r := RoundOf(pending, registered, global);
      hide RoundOf, Progressing, Outcome, AllResolvable, ClashFree, Untaken, NoneBuildable;
      if r.Passed? {
        assert multiset(r.next) + none == multiset(r.next);
        if |r.next| == |pending| {
          Stuck(input, registered, pending, global);
        } else {
          OutcomeFrom(input, r.registered, r.next, global);
        }
      }
      OutcomeOfError(input, global, Decoded(pending, registered, global));
    }
  }

  lemma OutcomeOfError(input: multiset<FileProto>, global: set<FileProto>, r: Result<set<FileProto>, ResolveError>)
    ensures r.Err? && r.error.RegisterFailed? && ClashAt(input, r.error.path) ==> Outcome(input, global, r)
    ensures r == Err(UnresolvedDeps) && !AllResolvable(Support(input), global) ==> Outcome(input, global, r)
    ensures r == Err(UnresolvedDeps) && !ClashFree(input) && !Untaken(Support(input), global) ==>
              Outcome(input, global, r)
  {
    if r.Err? && r.error.RegisterFailed? && ClashAt(input, r.error.path) {
      ClashAtShows(input, r.error.path);
    }
  }

  /** If no file takes a name from another, success is exactly that all files are resolvable and none
      clash, whatever their order. */
  lemma UntakenOrders(pending: seq<FileProto>, global: set<FileProto>)
    requires Untaken(Support(multiset(pending)), global)
    ensures var input := multiset(pending);
      && (Decoded(pending, {}, global).Ok? <==> AllResolvable(Support(input), global) && ClashFree(input))
      && (Decoded(pending, {}, global).Ok? ==> Decoded(pending, {}, global).value == Support(input))
  {
    assert Progressing(multiset(pending), {}, multiset(pending), global);
    OutcomeFrom(multiset(pending), {}, pending, global);
  }

  // ----- Exactly when the order does not matter

  ghost predicate Accepted(p: seq<FileProto>, global: set<FileProto>) {
    Decoded(p, {}, global).Ok?
  }

  ghost predicate AcceptedInSome(m: multiset<FileProto>, global: set<FileProto>) {
    exists p :: multiset(p) == m && Accepted(p, global)
  }

  ghost predicate AcceptedInEvery(m: multiset<FileProto>, global: set<FileProto>) {
    forall p :: multiset(p) == m ==> Accepted(p, global)
  }

  ghost predicate BuiltAt(w: seq<FileProto>, i: nat, global: set<FileProto>) {
    i < |w| ==> Buildable(w[i], Elements(w[..i]), global)
  }

  /** Each file of w can be built on those before it. */
  ghost predicate Built(w: seq<FileProto>, global: set<FileProto>) {
    forall i: nat :: BuiltAt(w, i, global)
  }

  /** No files of m, built one after the other, take a name from one that is still to come. */
  ghost predicate NeverTaken(m: multiset<FileProto>, global: set<FileProto>) {
    forall w, g, f :: Built(w, global) && multiset(w) <= m && g in w && f in m && f !in w ==> !Takes(g, f, global)
  }

  lemma BuiltOneMore(w: seq<FileProto>, f: FileProto, global: set<FileProto>)
    requires Built(w, global) && Buildable(f, Elements(w), global)
    ensures Built(w + [f], global)
  {
    hide Buildable;
    forall i: nat ensures BuiltAt(w + [f], i, global) {
      assert BuiltAt(w, i, global);
      if i < |w| {
        assert (w + [f])[..i] == w[..i];
      } else {
        assert (w + [f])[..|w|] == w;
      }
    }
  }

  lemma SameElements(w: seq<FileProto>, s: set<FileProto>)
    requires multiset(w) == multiset(s)
    ensures Elements(w) == s
  {
    assert forall f :: f in w <==> f in multiset(w);
    assert forall f :: f in s <==> f in multiset(s);
  }

  /** What a round registers has been built one after the other. */
  lemma {:induction false} RoundBuilds(registered: set<FileProto>, pending: seq<FileProto>, global: set<FileProto>,
                                       w: seq<FileProto>) returns (v: seq<FileProto>)
    requires ClashFree(multiset(registered)) && multiset(w) == multiset(registered) && Built(w, global)
    ensures var r := RoundOf(pending, registered, global);
      r.Passed? ==> Built(v, global) && multiset(v) == multiset(r.registered)
    decreases |pending|
  {
    hide Buildable, Built, ClashesWith, ClashFree;
    v := w;
    if pending != [] {
      var f, rest := pending[0], pending[1..];
      if !Buildable(f, registered, global) {
        v := RoundBuilds(registered, rest, global, w);
      } else if !ClashesWith(f, registered) {
        SameElements(w, registered);
        BuiltOneMore(w, f, global);
        GrowsClashFree(registered, f);
        v := RoundBuilds(registered + {f}, rest, global, w + [f]);
      }
    }
  }

  /** Nothing of m can be added to the files built, though something is left. */
  ghost predicate StuckAt(m: multiset<FileProto>, v: seq<FileProto>, global: set<FileProto>) {
    && (exists f :: f in m && f !in v)
    && forall f :: f in m && f !in v ==> !Buildable(f, Elements(v), global)
  }

  /** The files registered in the end have been built one after the other: all of them on success,
      as many as can be if references stay unresolved. */
  lemma {:induction false} DecodedBuilds(m: multiset<FileProto>, registered: set<FileProto>, pending: seq<FileProto>,
                                         global: set<FileProto>, w: seq<FileProto>) returns (v: seq<FileProto>)
    requires Progressing(m, registered, multiset(pending), global) && ClashFree(m)
    requires multiset(w) == multiset(registered) && Built(w, global)
    ensures Built(v, global) && multiset(v) <= m
    ensures var r := Decoded(pending, registered, global);
      if r.Ok? then multiset(v) == m else StuckAt(m, v, global)
    decreases |pending|
  {
    hide RoundOf, Buildable, Built, Untaken, Resolvable;
    v := w;
    if pending == [] {
      assert multiset(pending) == multiset{};
    } else {
      var none: multiset<FileProto> := multiset{};
      assert multiset(pending) + none == multiset(pending);
      RoundKeeps(m, registered, pending, none, global);
      var r := RoundOf(pending, registered, global);
      assert r.Passed?;
      assert multiset(r.next) + none == multiset(r.next);
      if |r.next| == |pending| {
        StuckThere(m, registered, pending, global, w);
      } else {
        var x := RoundBuilds(registered, pending, global, w);
        v := DecodedBuilds(m, r.registered, r.next, global, x);
      }
    }
  }

  lemma StuckThere(m: multiset<FileProto>, registered: set<FileProto>, pending: seq<FileProto>, global: set<FileProto>,
                   w: seq<FileProto>)
    requires m == multiset(pending) + multiset(registered) && ClashFree(m) && multiset(w) == multiset(registered)
    requires pending != [] && NoneBuildable(pending, registered, global)
    ensures StuckAt(m, w, global)
  {
    hide Buildable, Clash;
    SameElements(w, registered);
    assert pending[0] in multiset(pending) && m[pending[0]] <= 1;
    forall f | f in m && f !in w ensures !Buildable(f, Elements(w), global) {
      assert f in multiset(pending) ==> f in pending;
    }
  }

  // Building in a given order

  lemma InTurn(m: multiset<FileProto>, w: seq<FileProto>, i: nat)
    requires ClashFree(m) && multiset(w) <= m && i < |w|
    ensures !ClashesWith(w[i], Elements(w[..i]))
  {
    hide Clash;
    forall g | g in w[..i] ensures !Clash(w[i].file, g.file) {
      var j :| 0 <= j < i && w[j] == g;
      assert w == w[..i] + [w[i]] + w[i + 1..];
      assert multiset(w) == multiset(w[..i]) + multiset{w[i]} + multiset(w[i + 1..]);
      assert w[i] in multiset(w) && g in multiset(w) && g in multiset(w[..i]);
      assert m[w[i]] <= 1;
    }
  }

  /** Files that can be built one after the other are all registered in one round. */
  lemma {:induction false} RunsThrough(m: multiset<FileProto>, w: seq<FileProto>, i: nat, rest: seq<FileProto>,
                                       global: set<FileProto>)
    requires ClashFree(m) && multiset(w) <= m && Built(w, global) && i <= |w|
    ensures RoundOf(w[i..] + rest, Elements(w[..i]), global) == RoundOf(rest, Elements(w), global)
    decreases |w| - i
  {
    hide Buildable, ClashesWith;
    if i == |w| {
      assert w[i..] + rest == rest && w[..i] == w;
    } else {
      var p := w[i..] + rest;
      assert p[0] == w[i] && p[1..] == w[i + 1..] + rest;
      assert BuiltAt(w, i, global);
      InTurn(m, w, i);
      assert w[..i + 1] == w[..i] + [w[i]];
      assert Elements(w[..i + 1]) == Elements(w[..i]) + {w[i]};
      RunsThrough(m, w, i + 1, rest, global);
    }
  }

  lemma CompleteIsAccepted(m: multiset<FileProto>, w: seq<FileProto>, global: set<FileProto>)
    requires ClashFree(m) && multiset(w) == m && Built(w, global)
    ensures Accepted(w, global)
  {
    RunsThrough(m, w, 0, [], global);
    assert w[0..] + [] == w && Elements(w[..0]) == {};
    assert RoundOf([], Elements(w), global) == Passed([], Elements(w));
  }

  lemma DeclaredOnce(registered: set<FileProto>, g: FileProto, h: FileProto, n: Bytes)
    requires ClashFree(multiset(registered)) && g in registered && h in registered
    requires n in g.file.names && n in h.file.names
    ensures g == h
  {
    assert n in g.file.names * h.file.names;
  }

  /** A file from which a registered one takes a name is never built. */
  lemma TakenIsNotBuilt(registered: set<FileProto>, g: FileProto, f: FileProto, global: set<FileProto>)
    requires ClashFree(multiset(registered)) && g in registered && Takes(g, f, global)
    ensures !Buildable(f, registered, global)
  {
    var n :| n in f.uses && n !in f.file.names && n in g.file.names && g.file.path !in f.imports
      && DeclaresImported(global, n, f.imports);
    assert Declares(registered, n);
    if DeclaresImported(registered, n, f.imports) {
      var h :| h in registered && n in h.file.names && h.file.path in f.imports;
      DeclaredOnce(registered, g, h, n);
    }
    assert !Resolves(n, f.imports, registered, global);
  }

  lemma {:induction false} TakenWaits(m: multiset<FileProto>, registered: set<FileProto>, pending: seq<FileProto>,
                                      others: multiset<FileProto>, global: set<FileProto>, g: FileProto, f: FileProto)
    requires Progressing(m, registered, multiset(pending) + others, global)
    requires g in registered && Takes(g, f, global)
    ensures var r := RoundOf(pending, registered, global);
      r.Passed? ==> g in r.registered && (f in pending ==> f in r.next)
    decreases |pending|
  {
    assert ClashFree(multiset(registered));
    hide Progressing, Buildable, ClashFree, ClashesWith, Takes;
    if pending != [] {
      var h, rest := pending[0], pending[1..];
      assert pending == [h] + rest;
      assert multiset(pending) == multiset{h} + multiset(rest);
      TakenIsNotBuilt(registered, g, f, global);
      if !Buildable(h, registered, global) {
        assert multiset(pending) + others == multiset(rest) + (others + multiset{h});
        TakenWaits(m, registered, rest, others + multiset{h}, global, g, f);
      } else {
        Registers(m, registered, multiset(pending) + others, global, h);
        if !ClashesWith(h, registered) {
          assert multiset(pending) + others - multiset{h} == multiset(rest) + others;
          TakenWaits(m, registered + {h}, rest, others, global, g, f);
        }
      }
    }
  }

  lemma {:induction false} TakenIsRefused(m: multiset<FileProto>, registered: set<FileProto>, pending: seq<FileProto>,
                                          global: set<FileProto>, g: FileProto, f: FileProto)
    requires Progressing(m, registered, multiset(pending), global)
    requires g in registered && f in pending && Takes(g, f, global)
    ensures !Decoded(pending, registered, global).Ok?
    decreases |pending|
  {
    hide Progressing, Takes, RoundOf;
    var none: multiset<FileProto> := multiset{};
    assert multiset(pending) + none == multiset(pending);
    RoundKeeps(m, registered, pending, none, global);
    TakenWaits(m, registered, pending, none, global, g, f);
    var r := RoundOf(pending, registered, global);
    if r.Passed? && |r.next| < |pending| {
      assert multiset(r.next) + none == multiset(r.next);
      TakenIsRefused(m, r.registered, r.next, global, g, f);
    }
  }

  lemma {:induction false} AsSequence(m: multiset<FileProto>) returns (p: seq<FileProto>)
    ensures multiset(p) == m
    decreases |m|
  {
    p := [];
    if m != multiset{} {
      var f :| f in m;
      var rest := AsSequence(m - multiset{f});
      p := [f] + rest;
    }
  }

  /** If some files built one after the other take a name from one still to come, the order that
      starts with them is refused. */
  lemma TakingOrder(m: multiset<FileProto>, w: seq<FileProto>, g: FileProto, f: FileProto, global: set<FileProto>)
    returns (p: seq<FileProto>)
    requires ClashFree(m) && Built(w, global) && multiset(w) <= m
    requires g in w && f in m && f !in w && Takes(g, f, global)
    ensures multiset(p) == m && !Accepted(p, global)
  {
    var rest := AsSequence(m - multiset(w));
    p := w + rest;
    RunsThrough(m, w, 0, rest, global);
    assert w[0..] == w && Elements(w[..0]) == {};
    var none: set<FileProto> := {};
    assert RoundOf(p, none, global) == RoundOf(rest, Elements(w), global);
    RefusedAfter(m, w, rest, g, f, global);
  }

  lemma RefusedAfter(m: multiset<FileProto>, w: seq<FileProto>, rest: seq<FileProto>, g: FileProto, f: FileProto,
                     global: set<FileProto>)
    requires ClashFree(m) && m == multiset(w + rest)
    requires RoundOf(w + rest, {}, global) == RoundOf(rest, Elements(w), global)
    requires g in w && f in rest && Takes(g, f, global)
    ensures !Accepted(w + rest, global)
  {
    var registered, none: multiset<FileProto> := Elements(w), multiset{};
    assert multiset(w + rest) == multiset(w) + multiset(rest);
    InOneRound(m, w, rest, g, f, global);
    hide Progressing, RoundOf, Takes;
    assert multiset(rest) + none == multiset(rest);
    RoundKeeps(m, registered, rest, none, global);
    TakenWaits(m, registered, rest, none, global, g, f);
    var r := RoundOf(rest, registered, global);
    if r.Passed? {
      assert multiset(r.next) + none == multiset(r.next);
      TakenIsRefused(m, r.registered, r.next, global, g, f);
    }
  }

  lemma InOneRound(m: multiset<FileProto>, w: seq<FileProto>, rest: seq<FileProto>, g: FileProto, f: FileProto,
                   global: set<FileProto>)
    requires ClashFree(m) && m == multiset(w) + multiset(rest)
    requires g in w && f in rest && Takes(g, f, global)
    ensures Progressing(m, Elements(w), multiset(rest), global)
  {
    hide Clash, Takes;
    assert forall x :: x in multiset(w) ==> m[x] <= 1;
    assert multiset(Elements(w)) == multiset(w);
    assert g in multiset(w) && f in multiset(rest);
    assert g in Support(m) && f in Support(m);
  }

  lemma {:induction false} FirstMissing(a: seq<FileProto>, v: seq<FileProto>) returns (i: nat)
    requires exists f :: f in a && f !in v
    ensures i < |a| && a[i] !in v && Elements(a[..i]) <= Elements(v)
  {
    if a[0] !in v {
      i := 0;
    } else {
      var k := FirstMissing(a[1..], v);
      i := k + 1;
      assert a[..i] == [a[0]] + a[1..][..k];
      assert Elements(a[..i]) == {a[0]} + Elements(a[1..][..k]);
    }
  }

  lemma AcceptedIsClashFree(m: multiset<FileProto>, p: seq<FileProto>, global: set<FileProto>)
    requires multiset(p) == m && Accepted(p, global)
    ensures ClashFree(m)
  {
    assert Progressing(m, {}, m, global);
    OutcomeFrom(m, {}, p, global);
  }

  lemma BuiltInOrder(m: multiset<FileProto>, p: seq<FileProto>, global: set<FileProto>) returns (v: seq<FileProto>)
    requires multiset(p) == m && ClashFree(m)
    ensures Built(v, global) && multiset(v) <= m
    ensures if Accepted(p, global) then multiset(v) == m else StuckAt(m, v, global)
  {
    assert Progressing(m, {}, m, global);
    v := DecodedBuilds(m, {}, p, global, []);
  }

  /** Some files have been built one after the other: all of them on success, as many as can be
      otherwise. */
  ghost predicate EndsBuilt(m: multiset<FileProto>, global: set<FileProto>, r: Result<set<FileProto>, ResolveError>) {
    exists v :: Built(v, global) && multiset(v) <= m && if r.Ok? then multiset(v) == m else StuckAt(m, v, global)
  }

  /** Some order is accepted exactly if the files can be built one after the other, and do not clash. */
  lemma SomeOrderExactly(m: multiset<FileProto>, global: set<FileProto>)
    ensures AcceptedInSome(m, global) <==> ClashFree(m) && exists w :: multiset(w) == m && Built(w, global)
  {
    hide Built, ClashFree, Accepted;
    if p :| multiset(p) == m && Accepted(p, global) {
      AcceptedIsClashFree(m, p, global);
      var w := BuiltInOrder(m, p, global);
    }
    if w :| ClashFree(m) && multiset(w) == m && Built(w, global) {
      CompleteIsAccepted(m, w, global);
    }
  }

  /** Where all files can be built in some order, none taking a name too early, no other order gets
      stuck. */
  lemma NoOrderSticks(m: multiset<FileProto>, a: seq<FileProto>, v: seq<FileProto>, global: set<FileProto>)
    requires multiset(a) == m && Built(a, global) && NeverTaken(m, global)
    requires multiset(v) <= m && Built(v, global)
    ensures !StuckAt(m, v, global)
  {
    hide Buildable, Takes;
    if f :| f in m && f !in v {
      assert f in multiset(a);
      assert f in a && f !in v;
      var i := FirstMissing(a, v);
      assert BuiltAt(a, i, global);
      assert a[i] in multiset(a);
      forall g | g in Elements(v) ensures !Takes(g, a[i], global) {
      }
      BuildableGrows(a[i], Elements(a[..i]), Elements(v), global);
    }
  }

  /** Every order is accepted exactly if some order is, and no files built one after the other take
      a name from one still to come. */
  lemma OrderDoesNotMatter(m: multiset<FileProto>, global: set<FileProto>)
    ensures AcceptedInEvery(m, global) <==> AcceptedInSome(m, global) && NeverTaken(m, global)
  {
    hide Built, ClashFree, Accepted, Takes, StuckAt;
    if AcceptedInEvery(m, global) {
      var p := AsSequence(m);
      assert Accepted(p, global);
      AcceptedIsClashFree(m, p, global);
      forall w, g, f | Built(w, global) && multiset(w) <= m && g in w && f in m && f !in w
        ensures !Takes(g, f, global)
      {
        if Takes(g, f, global) {
          var q := TakingOrder(m, w, g, f, global);
        }
      }
    }
    if AcceptedInSome(m, global) && NeverTaken(m, global) {
      var p0 :| multiset(p0) == m && Accepted(p0, global);
      AcceptedIsClashFree(m, p0, global);
      var a := BuiltInOrder(m, p0, global);
      forall p | multiset(p) == m ensures Accepted(p, global) {
        var v := BuiltInOrder(m, p, global);
        NoOrderSticks(m, a, v, global);
      }
    }
  }

  // ----- Accepted sets, without an order

  /** Given the files `rest` besides the linked-in ones, something that f refers to is nowhere, or f
      is ill-formed. */
  ghost predicate Lacks(f: FileProto, rest: set<FileProto>, global: set<FileProto>) {
    || !f.wellFormed
    || (exists p :: p in f.imports && forall g :: g in rest + global ==> g.file.path != p)
    || (exists n :: n in f.uses && n !in f.file.names
                  && forall g :: g in rest + global ==> !(g.file.path in f.imports && n in g.file.names))
  }

  /** Files none of which can do without another one of them. */
  ghost predicate Deadlock(s: set<FileProto>, files: set<FileProto>, global: set<FileProto>) {
    s != {} && s <= files && forall f :: f in s ==> Lacks(f, files - s, global)
  }

  lemma BuildableLacksNothing(f: FileProto, registered: set<FileProto>, rest: set<FileProto>, global: set<FileProto>)
    requires Buildable(f, registered, global) && registered <= rest
    ensures !Lacks(f, rest, global)
  {
    forall p | p in f.imports ensures exists g :: g in rest + global && g.file.path == p {
      assert p in Paths(registered) || p in Paths(global);
    }
    forall n | n in f.uses && n !in f.file.names
      ensures exists g :: g in rest + global && g.file.path in f.imports && n in g.file.names
    {
      assert Resolves(n, f.imports, registered, global);
    }
  }

  lemma LacksOrBuilds(f: FileProto, registered: set<FileProto>, global: set<FileProto>)
    requires !Buildable(f, registered, global) && forall g :: g in registered ==> !Takes(g, f, global)
    ensures Lacks(f, registered, global)
  {
    if !Lacks(f, registered, global) {
      forall p | p in f.imports ensures p in Paths(registered) + Paths(global) {
        var g :| g in registered + global && g.file.path == p;
      }
      forall n | n in f.uses && n !in f.file.names ensures Resolves(n, f.imports, registered, global) {
        var h :| h in registered + global && h.file.path in f.imports && n in h.file.names;
      }
    }
  }

  /** In an accepted set no files wait for each other, and none lacks anything. */
  lemma AcceptedIsLinked(m: multiset<FileProto>, p: seq<FileProto>, global: set<FileProto>, s: set<FileProto>)
    requires multiset(p) == m && Accepted(p, global)
    ensures !Deadlock(s, Support(m), global)
  {
    AcceptedIsClashFree(m, p, global);
    var w := BuiltInOrder(m, p, global);
    if s != {} && s <= Support(m) {
      var x :| x in s;
      assert x in multiset(w);
      var i := FirstOf(w, s);
      assert BuiltAt(w, i, global);
      forall g | g in Elements(w[..i]) ensures g in Support(m) - s {
        assert g in w && g in multiset(w);
      }
      BuildableLacksNothing(w[i], Elements(w[..i]), Support(m) - s, global);
    }
  }

  lemma {:induction false} FirstOf(w: seq<FileProto>, s: set<FileProto>) returns (i: nat)
    requires exists x :: x in w && x in s
    ensures i < |w| && w[i] in s && Elements(w[..i]) !! s
  {
    if w[0] in s {
      i := 0;
    } else {
      var k := FirstOf(w[1..], s);
      i := k + 1;
      assert w[..i] == [w[0]] + w[1..][..k];
      assert Elements(w[..i]) == {w[0]} + Elements(w[1..][..k]);
    }
  }

  /** An upload in which no file takes a name from another is accepted exactly if no two of its files
      clash, and no files in it are such that each is ill-formed, imports a path or uses a name that
      is found only among themselves, or nowhere at all. */
  lemma AcceptedExactly(p: seq<FileProto>, global: set<FileProto>)
    requires Untaken(Support(multiset(p)), global)
    ensures var files := Support(multiset(p));
      Accepted(p, global) <==> ClashFree(multiset(p)) && forall s :: !Deadlock(s, files, global)
  {
    var m := multiset(p);
    hide ClashFree, Accepted, Lacks;
    if Accepted(p, global) {
      AcceptedIsClashFree(m, p, global);
      forall s ensures !Deadlock(s, Support(m), global) {
        AcceptedIsLinked(m, p, global, s);
      }
    } else if ClashFree(m) {
      var v := BuiltInOrder(m, p, global);
      StuckIsDeadlock(m, v, global);
    }
  }

  lemma StuckIsDeadlock(m: multiset<FileProto>, v: seq<FileProto>, global: set<FileProto>)
    requires Untaken(Support(m), global) && multiset(v) <= m && StuckAt(m, v, global)
    ensures Deadlock(Support(m) - Elements(v), Support(m), global)
  {
    var built := Elements(v);
    forall g | g in built ensures g in Support(m) {
      assert g in multiset(v);
    }
    var s := Support(m) - built;
    assert Support(m) - s == built;
    hide Lacks, Buildable, Takes;
    var x :| x in m && x !in v;
    assert x in s;
    forall f | f in s ensures Lacks(f, Support(m) - s, global) {
      LacksOrBuilds(f, built, global);
    }
  }

  /** A file that uses a name of the linked-in file "g", which it imports; another uploaded file that
      declares that name too. */
  const SHADOWED := FileProto(File([0x67], {}, {[0x6E]}, {}), {}, {}, true)

  const USER := FileProto(File([0x75], {}, {}, {}), {[0x67]}, {[0x6E]}, true)

  const SHADOWING := FileProto(File([0x6F], {}, {[0x6E]}, {}), {}, {}, true)

  /** The smallest case where it does: in one order both files are accepted, in the other none. */
  lemma OrderMatters()
    ensures Decoded([USER, SHADOWING], {}, {SHADOWED}) == Ok({USER, SHADOWING})
    ensures Decoded([SHADOWING, USER], {}, {SHADOWED}) == Err(UnresolvedDeps)
  {
    OneIsLost([0x6E], SHADOWED, USER, SHADOWING);
    hide Decoded, Buildable, ClashesWith;
    TwoBuilt(USER, SHADOWING, {SHADOWED});
    OneLeft(SHADOWING, USER, {SHADOWED});
  }

  lemma OneIsLost(name: Bytes, g: FileProto, user: FileProto, other: FileProto)
    requires user == FileProto(File(user.file.path, {}, {}, {}), {g.file.path}, {name}, true)
    requires other == FileProto(File(other.file.path, {}, {name}, {}), {}, {}, true)
    requires user.file.path != other.file.path && other.file.path != g.file.path && name in g.file.names
    ensures Buildable(user, {}, {g}) && !Buildable(user, {other}, {g})
    ensures Buildable(other, {user}, {g}) && Buildable(other, {}, {g})
    ensures !ClashesWith(other, {user}) && !ClashesWith(user, {}) && !ClashesWith(other, {})
  {
    assert g.file.path in Paths({g});
    assert DeclaresImported({g}, name, user.imports) && !Declares({}, name);
    assert Declares({other}, name) by {
      assert name in other.file.names;
    }
    assert !DeclaresImported({other}, name, user.imports);
    assert name in user.uses && !Resolves(name, user.imports, {other}, {g});
  }

  lemma TwoBuilt(a: FileProto, b: FileProto, global: set<FileProto>)
    requires Buildable(a, {}, global) && !ClashesWith(a, {})
    requires Buildable(b, {a}, global) && !ClashesWith(b, {a})
    ensures Decoded([a, b], {}, global) == Ok({a, b})
  {
    hide Buildable, ClashesWith;
    var none: set<FileProto> := {};
    assert [a, b][1..] == [b] && [b][1..] == [] && none + {a} == {a} && {a} + {b} == {a, b};
    assert RoundOf([], {a, b}, global) == Passed([], {a, b});
    assert RoundOf([b], {a}, global) == Passed([], {a, b});
    assert RoundOf([a, b], {}, global) == Passed([], {a, b});
  }

  lemma OneLeft(a: FileProto, b: FileProto, global: set<FileProto>)
    requires Buildable(a, {}, global) && !ClashesWith(a, {}) && !Buildable(b, {a}, global)
    ensures Decoded([a, b], {}, global) == Err(UnresolvedDeps)
  {
    hide Buildable, ClashesWith;
    var none: set<FileProto> := {};
    assert [a, b][1..] == [b] && [b][1..] == [] && none + {a} == {a};
    assert RoundOf([], {a}, global) == Passed([], {a});
    assert RoundOf([b], {a}, global) == Passed([b], {a});
    assert RoundOf([a, b], {}, global) == Passed([b], {a});
    assert Decoded([b], {a}, global) == Err(UnresolvedDeps);
  }

  // ----- The code

  /** The entries that are not nil. */
  function Present(fds: seq<Option<FileProto>>): seq<FileProto> {
    if fds == [] then []
    else
      var earlier, last := Present(fds[..|fds| - 1]), fds[|fds| - 1];
      if last.None? then earlier else earlier + [last.value]
  }

  function Entries(files: seq<FileProto>): seq<Option<FileProto>> {
    seq(|files|, i requires 0 <= i < |files| => Some(files[i]))
  }

  /** `files` holds each file as often as the upload does, and in its order. */
  ghost predicate TakesAll(files: seq<FileProto>, fds: seq<Option<FileProto>>) {
    && (forall f :: multiset(files)[f] == multiset(fds)[Some(f)])
    && Subsequence(Entries(files), fds)
  }

  lemma {:induction false} PresentTakesAll(fds: seq<Option<FileProto>>)
    ensures TakesAll(Present(fds), fds)
  {
    if fds == [] {
      NothingPicked(fds);
      assert Entries([]) == [];
    } else {
      var before, last := fds[..|fds| - 1], fds[|fds| - 1];
      var files := Present(before);
      PresentTakesAll(before);
      OneMorePicked(Entries(files), before, last);
      assert fds == before + [last];
      if last.Some? {
        assert Entries(files + [last.value]) == Entries(files) + [last];
      }
    }
  }

  /** Nil entries are skipped; all others count, wherever they stand. */
  method DecodeDescriptorFiles(fds: seq<Option<FileProto>>, global: set<FileProto>)
    returns (r: Result<set<FileProto>, ResolveError>)
    ensures TakesAll(Present(fds), fds) && r == Decoded(Present(fds), {}, global)
    ensures Outcome(multiset(Present(fds)), global, r)
    ensures ClashFree(multiset(Present(fds))) ==> EndsBuilt(multiset(Present(fds)), global, r)
    ensures r.Ok? ==> forall f :: f in r.value <==> Some(f) in fds
  {
    PresentTakesAll(fds);
    var pending := [];
    for i := 0 to |fds|
      invariant pending == Present(fds[..i])
    {
      assert fds[..i + 1][..i] == fds[..i];
      if fds[i].Some? {
        pending := pending + [fds[i].value];
      }
    }
    assert fds[..|fds|] == fds;
    var registered: set<FileProto> := {};
    if ClashFree(multiset(pending)) {
      var v := BuiltInOrder(multiset(pending), pending, global);
      assert EndsBuilt(multiset(pending), global, Decoded(pending, {}, global));
    }
    assert Progressing(multiset(pending), {}, multiset(pending), global);
    OutcomeFrom(multiset(pending), {}, pending, global);
    hide Progressing, Outcome, RoundOf;
    while pending != []
      invariant Decoded(pending, registered, global) == Decoded(Present(fds), {}, global)
      decreases |pending|
    {
      var failed, next, grown, progress := OneRound(pending, registered, global);
      if failed.Some? {
        return Err(RegisterFailed(failed.value));
      }
      if !progress {
        return Err(UnresolvedDeps);
      }
      pending, registered := next, grown;
    }
    return Ok(registered);
  }

  method OneRound(pending: seq<FileProto>, registered0: set<FileProto>, global: set<FileProto>)
    returns (failed: Option<Bytes>, next: seq<FileProto>, registered: set<FileProto>, progress: bool)
    ensures var r := RoundOf(pending, registered0, global);
      if r.Failed? then failed == Some(r.path)
      else failed.None? && next == r.next && registered == r.registered && (progress <==> |next| < |pending|)
  {
    hide Buildable, ClashesWith;
    failed, next, registered, progress := None, [], registered0, false;
    assert pending[0..] == pending;
    for i := 0 to |pending|
      invariant failed.None? && |next| <= i && (progress <==> |next| < i)
      invariant RoundOf(pending, registered0, global) == AllWaiting(next, RoundOf(pending[i..], registered, global))
    {
      var f := pending[i];
      assert pending[i..][0] == f && pending[i..][1..] == pending[i + 1..];
      OneMoreWaits(next, f, RoundOf(pending[i + 1..], registered, global));
      if !Buildable(f, registered, global) {
        next := next + [f];
      } else if ClashesWith(f, registered) {
        failed := Some(f.file.path);
        return;
      } else {
        registered := registered + {f};
        progress := true;
      }
    }
    assert next + [] == next;
  }

  function AllWaiting(fs: seq<FileProto>, r: Round): Round {
    if r.Failed? then r else r.(next := fs + r.next)
  }

  lemma OneMoreWaits(fs: seq<FileProto>, f: FileProto, r: Round)
    ensures AllWaiting(fs + [f], r) == AllWaiting(fs, Waiting(f, r))
  {
    assert r.Passed? ==> fs + [f] + r.next == fs + ([f] + r.next);
  }
}
