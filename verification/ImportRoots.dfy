/** Minimal import roots for proto compilation: findMinimalPaths of internal/domain/protoset/
    transform.go, and the processor of transform_processor.go that keeps adding roots and files. */
module ImportRoots {
  import opened Utf8
  import opened Wrappers
  import opened Finite
  import Sorting

  // A path is absolute and cleaned: a list of components, spelled with a slash in front of each.
  // Directory a contains b exactly when a is a prefix of b. The code decides that by relative
  // paths in one place and by comparing strings in another.

  const SLASH: byte := 0x2F

  const DOT: Bytes := [0x2E]

  const DOT_DOT: Bytes := [0x2E, 0x2E]

  predicate IsComponent(c: Bytes) {
    c != [] && c != DOT && c != DOT_DOT && SLASH !in c
  }

  type Component = c: Bytes | IsComponent(c) witness [0x61]

  type Path = seq<Component>

  // ----- Spelling

  /** A slash in front of each component. */
  function Slashed(p: Path): Bytes {
    if p == [] then [] else [SLASH] + p[0] + Slashed(p[1..])
  }

  function Text(p: Path): Bytes {
    if p == [] then [SLASH] else Slashed(p)
  }

  /** Components with slashes between them: the spelling of a relative path. */
  function Relative(p: Path): Bytes
    requires p != []
  {
    Slashed(p)[1..]
  }

  lemma {:induction false} SlashedJoin(p: Path, q: Path)
    ensures Slashed(p + q) == Slashed(p) + Slashed(q)
  {
    if p == [] {
      assert p + q == q;
    } else {
      SlashedJoin(p[1..], q);
      assert (p + q)[1..] == p[1..] + q;
    }
  }

  /** A directory is spelled shorter than anything inside it. */
  lemma ShorterSpelling(p: Path, q: Path)
    requires p < q
    ensures |Text(p)| < |Text(q)|
  {
    SlashedJoin(p, q[|p|..]);
    assert p + q[|p|..] == q;
    assert |Slashed(q[|p|..])| >= 2;
  }

  // ----- Containment, as each place decides it

  /** filepath.Rel: up to where the paths part, then down. */
  function Rel(base: Path, target: Path): seq<Bytes> {
    if base != [] && target != [] && base[0] == target[0] then Rel(base[1..], target[1..])
    else seq(|base|, _ => DOT_DOT) + target
  }

  predicate Escapes(rel: seq<Bytes>) {
    rel != [] && rel[0] == DOT_DOT
  }

  lemma {:induction false} RelDecides(base: Path, target: Path)
    ensures Escapes(Rel(base, target)) <==> !(base <= target)
    ensures base <= target ==> Rel(base, target) == target[|base|..]
  {
    if base != [] && target != [] && base[0] == target[0] {
      RelDecides(base[1..], target[1..]);
      assert base == [base[0]] + base[1..] && target == [target[0]] + target[1..];
    }
  }

  /** The spelling of a directory, ended by a slash. */
  function DirText(p: Path): Bytes {
    if p == [] then Text(p) else Text(p) + [SLASH]
  }

  /** Comparing spellings decides strict containment, and the remainder is the relative path. */
  lemma {:induction false} TextDecides(dir: Path, file: Path)
    ensures DirText(dir) <= Text(file) <==> dir < file || (dir == [] == file)
    ensures dir < file ==> DirText(dir) + Relative(file[|dir|..]) == Text(file)
  {
    if dir < file {
      Remainder(dir, file);
    } else if dir != [] && DirText(dir) <= Text(file) {
      assert |DirText(dir)| > 1;
      hide *;
      assert file != [];
      assert dir != [] ==> Text(dir) == Slashed(dir) && DirText(dir) == Slashed(dir) + [SLASH];
      assert file != [] ==> Text(file) == Slashed(file) && DirText(file) == Slashed(file) + [SLASH];
      SlashesAlign(dir, file);
    }
  }

  lemma Remainder(dir: Path, file: Path)
    requires dir < file
    ensures DirText(dir) <= Text(file) && DirText(dir) + Relative(file[|dir|..]) == Text(file)
  {
    var rest := file[|dir|..];
    SlashedJoin(dir, rest);
    assert dir + rest == file;
    assert Slashed(rest) == [SLASH] + Relative(rest);
    assert DirText(dir) == Slashed(dir) + [SLASH];
    hide *;
    assert Slashed(dir) + ([SLASH] + Relative(rest)) == Slashed(dir) + [SLASH] + Relative(rest);
    assert file != [] ==> Text(file) == Slashed(file) && DirText(file) == Slashed(file) + [SLASH];
  }

  lemma {:induction false} SlashesAlign(dir: Path, file: Path)
    requires Slashed(dir) + [SLASH] <= Slashed(file)
    ensures dir < file
  {
    if dir != [] {
      var c, more := dir[0], Slashed(dir[1..]) + [SLASH];
      assert Slashed(dir) + [SLASH] == [SLASH] + c + more;
      assert file != [];
      var f, rest := file[0], Slashed(file[1..]);
      FirstComponent(c, more, f, rest);
      SlashesAlign(dir[1..], file[1..]);
      assert dir == [c] + dir[1..] && file == [f] + file[1..];
    }
  }

  /** The first component ends at the first slash, on both sides. */
  lemma FirstComponent(c: Bytes, more: Bytes, f: Bytes, rest: Bytes)
    requires SLASH !in c && SLASH !in f && more != [] && more[0] == SLASH && (rest == [] || rest[0] == SLASH)
    requires [SLASH] + c + more <= [SLASH] + f + rest
    ensures c == f && more <= rest
  {
    var a, b := c + more, f + rest;
    assert a == ([SLASH] + c + more)[1..] && b == ([SLASH] + f + rest)[1..] && a <= b;
    assert a[|c|] == SLASH && b[|c|] == SLASH;
    assert forall i :: 0 <= i < |f| ==> b[i] == f[i] && f[i] in f;
    assert |f| <= |c|;
    assert forall i :: 0 <= i < |c| ==> b[i] == a[i] == c[i] && c[i] in c;
    assert |f| < |b| ==> b[|f|] == SLASH;
    assert c == a[..|c|] == b[..|c|] == f;
    assert more == a[|c|..] && rest == b[|c|..];
  }

  // ----- Minimal roots

  /** The directories of a set that no other one of it contains. */
  ghost function Minimal(dirs: set<Path>): set<Path> {
    set p | p in dirs && !Inside(p, dirs)
  }

  ghost predicate Inside(p: Path, dirs: set<Path>) {
    exists q :: q in dirs && q < p
  }

  ghost predicate Covered(dirs: set<Path>, p: Path) {
    exists q :: q in dirs && q <= p
  }

  ghost predicate Antichain(dirs: set<Path>) {
    forall p, q :: p in dirs && q in dirs && p <= q ==> p == q
  }

  /** Minimal roots contain one another nowhere and still cover everything. */
  lemma MinimalRoots(dirs: set<Path>)
    ensures Antichain(Minimal(dirs))
    ensures forall p :: Covered(Minimal(dirs), p) <==> Covered(dirs, p)
  {
    forall p, q | p in Minimal(dirs) && q in Minimal(dirs) && p <= q ensures p == q {
      assert p != q ==> p < q;
    }
    forall p | Covered(dirs, p) ensures Covered(Minimal(dirs), p) {
      var q :| q in dirs && q <= p;
      var r := MinimalBelow(dirs, q);
    }
  }

  lemma {:induction false} MinimalBelow(dirs: set<Path>, q: Path) returns (r: Path)
    requires q in dirs
    ensures r in Minimal(dirs) && r <= q
    decreases |q|
  {
    if Inside(q, dirs) {
      var p :| p in dirs && p < q;
      r := MinimalBelow(dirs, p);
    } else {
      r := q;
    }
  }

  /** Minimising what was minimised before makes no difference. */
  lemma MinimalAgain(dirs: set<Path>, d: Path)
    ensures Minimal(Minimal(dirs) + {d}) == Minimal(dirs + {d})
  {
    var some, all := Minimal(dirs) + {d}, dirs + {d};
    forall p ensures Inside(p, some) <==> Inside(p, all) {
      if q :| q in dirs && q < p {
        var r := MinimalBelow(dirs, q);
        assert r in some && r < p;
      }
    }
    assert forall p :: Inside(p, dirs) ==> Inside(p, all);
  }

  /** At most one root contains a given file. */
  lemma OneRootPerFile(dirs: set<Path>, p: Path, q: Path, file: Path)
    requires Antichain(dirs) && p in dirs && q in dirs && p <= file && q <= file
    ensures p == q
  {
    assert p <= q || q <= p;
  }

  // ----- Sorting by the length of the spelling

  predicate Sorted(s: seq<Path>) {
    forall i, j :: 0 <= i < j < |s| ==> |Text(s[i])| <= |Text(s[j])|
  }

  predicate Shorter(p: Path, q: Path) {
    |Text(p)| < |Text(q)|
  }

  function SortByLength(s: seq<Path>): seq<Path> {
    Sorting.Sort(Shorter, s)
  }

  lemma SortByLengthSorts(s: seq<Path>)
    ensures Sorted(SortByLength(s)) && Elements(SortByLength(s)) == Elements(s)
  {
    Sorting.SortSorts(Shorter, s);
    var t := SortByLength(s);
    assert forall x :: x in t <==> x in multiset(t);
    assert forall x :: x in s <==> x in multiset(s);
    forall i, j | 0 <= i < j < |t| ensures |Text(t[i])| <= |Text(t[j])| {
      assert !Shorter(t[j], t[i]);
    }
  }

  // ----- The code

  /** The result is a function of the set of paths: neither order nor repetition matters. */
  method FindMinimalPaths(paths: seq<Path>) returns (result: seq<Path>)
    ensures Elements(result) == Minimal(Elements(paths)) && Distinct(result)
    ensures Sorted(result)
  {
    var sorted := SortByLength(paths);
    SortByLengthSorts(paths);
    result := [];
    assert KeptOf(sorted, 0, result);
    hide *;
    for i := 0 to |sorted|
      invariant KeptOf(sorted, i, result)
    {
      KeepOrSkip(sorted, i, result);
      var isSubPath := IsSubPath(result, sorted[i]);
      if !isSubPath {
        result := result + [sorted[i]];
      }
    }
    KeptAll(sorted, result);
  }

  lemma KeptAll(sorted: seq<Path>, result: seq<Path>)
    requires KeptOf(sorted, |sorted|, result)
    ensures Elements(result) == Minimal(Elements(sorted)) && Distinct(result) && Sorted(result)
  {
    assert sorted[..|sorted|] == sorted;
  }

  /** The inner loop. */
  method IsSubPath(result: seq<Path>, path: Path) returns (isSubPath: bool)
    ensures isSubPath <==> exists k :: 0 <= k < |result| && result[k] <= path
  {
    for j := 0 to |result|
      invariant forall k :: 0 <= k < j ==> !(result[k] <= path)
    {
      RelDecides(result[j], path);
      if !Escapes(Rel(result[j], path)) {
        return true;
      }
    }
    return false;
  }

  /** `result` holds the minimal ones among the first i, in order. */
  ghost predicate KeptOf(sorted: seq<Path>, i: nat, result: seq<Path>) {
    && i <= |sorted| && Sorted(sorted)
    && Elements(result) == Minimal(Elements(sorted[..i]))
    && Distinct(result) && Sorted(result)
  }

  lemma KeepOrSkip(sorted: seq<Path>, i: nat, result: seq<Path>)
    requires KeptOf(sorted, i, result) && i < |sorted|
    ensures KeptOf(sorted, i + 1,
                   if exists k :: 0 <= k < |result| && result[k] <= sorted[i] then result else result + [sorted[i]])
  {
    var path, before := sorted[i], Elements(sorted[..i]);
    assert Elements(sorted[..i + 1]) == before + {path};
    forall q | q in before ensures !(path < q) {
      var k :| 0 <= k < i && sorted[k] == q;
      if path < q {
        ShorterSpelling(path, q);
      }
    }
    MinimalRoots(before);
    if k :| 0 <= k < |result| && result[k] <= path {
      assert result[k] in Elements(result);
      CoveredAdds(before, path, result[k]);
    } else {
      UncoveredAdds(before, path, result);
      forall k | 0 <= k < |result| ensures |Text(result[k])| <= |Text(path)| {
        assert result[k] in Elements(result);
        var h :| 0 <= h < i && sorted[h] == result[k];
      }
    }
  }

  lemma CoveredAdds(before: set<Path>, path: Path, r: Path)
    requires r in Minimal(before) && r <= path && forall q :: q in before ==> !(path < q)
    ensures Minimal(before + {path}) == Minimal(before)
  {
    assert r == path || r < path;
  }

  lemma UncoveredAdds(before: set<Path>, path: Path, result: seq<Path>)
    requires Elements(result) == Minimal(before) && forall q :: q in before ==> !(path < q)
    requires !exists k :: 0 <= k < |result| && result[k] <= path
    ensures Minimal(before + {path}) == Elements(result + [path]) && path !in result
  {
    MinimalRoots(before);
    assert !Covered(Minimal(before), path);
    assert !Covered(before, path);
    assert Elements(result + [path]) == Elements(result) + {path};
  }

  // ----- The processor

  datatype FileKind = Proto | Descriptor

  /** Longest spelling first: the first root found is the longest, and the only one. */
  method FindPathByImports(file: Path, imports: seq<Path>) returns (found: Option<Path>, reordered: seq<Path>)
    requires file != []
    ensures Elements(reordered) == Elements(imports)
    ensures found.Some? ==> found.value in imports && found.value < file
    ensures found.None? ==> forall p :: p in imports ==> !(p < file)
  {
    reordered := LongestFirst(imports);
    Listed(imports, reordered);
    hide *;
    OutsideNone(reordered, file);
    for i := 0 to |reordered|
      invariant Outside(reordered, i, file)
    {
      TextDecides(reordered[i], file);
      if DirText(reordered[i]) <= Text(file) {
        return Some(reordered[i]), reordered;
      }
      OutsideOneMore(reordered, i, file);
    }
    OutsideAll(imports, reordered, file);
    return None, reordered;
  }

  /** The first i directories do not contain the file. */
  ghost predicate Outside(dirs: seq<Path>, i: nat, file: Path) {
    i <= |dirs| && forall k :: 0 <= k < i ==> !(dirs[k] < file)
  }

  lemma OutsideNone(dirs: seq<Path>, file: Path)
    ensures Outside(dirs, 0, file)
  {
  }

  lemma OutsideOneMore(dirs: seq<Path>, i: nat, file: Path)
    requires i < |dirs| && Outside(dirs, i, file) && !(dirs[i] < file)
    ensures Outside(dirs, i + 1, file)
  {
  }

  lemma OutsideAll(imports: seq<Path>, reordered: seq<Path>, file: Path)
    requires Elements(reordered) == Elements(imports) && Outside(reordered, |reordered|, file)
    ensures forall p :: p in imports ==> !(p < file)
  {
    Listed(imports, reordered);
  }

  method LongestFirst(imports: seq<Path>) returns (reordered: seq<Path>)
    ensures Elements(reordered) == Elements(imports)
    ensures forall i, j :: 0 <= i < j < |reordered| ==> |Text(reordered[i])| >= |Text(reordered[j])|
  {
    var sorted := SortByLength(imports);
    SortByLengthSorts(imports);
    hide SortByLength, Text;
    reordered := seq(|sorted|, i requires 0 <= i < |sorted| => sorted[|sorted| - 1 - i]);
    Reversed(sorted, reordered);
  }

  lemma Listed(imports: seq<Path>, reordered: seq<Path>)
    requires Elements(reordered) == Elements(imports)
    ensures forall i :: 0 <= i < |reordered| ==> reordered[i] in imports
    ensures forall p :: p in imports ==> exists i :: 0 <= i < |reordered| && reordered[i] == p
  {
    assert forall i :: 0 <= i < |reordered| ==> reordered[i] in Elements(imports);
    assert forall p :: p in imports ==> p in Elements(reordered);
  }

  lemma Reversed(s: seq<Path>, r: seq<Path>)
    requires |r| == |s| && forall i :: 0 <= i < |s| ==> r[i] == s[|s| - 1 - i]
    ensures Elements(r) == Elements(s)
  {
    forall p | p in s ensures p in r {
      var i :| 0 <= i < |s| && s[i] == p;
      assert r[|s| - 1 - i] == p;
    }
  }

  /** A root and a relative path that name the file. */
  ghost predicate Names(imports: set<Path>, file: Path, relative: Bytes) {
    exists root :: root in imports && root < file && DirText(root) + relative == Text(file)
  }

  class Processor {
    var imports: seq<Path>
    var protos: seq<Bytes>
    var descriptors: seq<Path>
    var seenDirs: set<Path>
    var seenFiles: set<Path>
    ghost var added: set<Path>

    /** The imports are the minimal roots of all directories added so far. */
    ghost predicate Valid()
      reads this
    {
      && Elements(imports) == Minimal(added) && seenDirs <= added
      && forall f :: f in seenFiles ==> Inside(f, added)
    }

    constructor (roots: seq<Path>)
      ensures Valid() && added == Elements(roots) && protos == [] && descriptors == [] && seenFiles == {}
    {
      var minimal := FindMinimalPaths(roots);
      imports, protos, descriptors, seenDirs, seenFiles := minimal, [], [], {}, {};
      added := Elements(roots);
    }

    method AddImport(dir: Path)
      requires Valid()
      modifies this`imports, this`seenDirs, this`added
      ensures Valid() && added == old(added) + {dir}
      ensures Antichain(Elements(imports))
      ensures forall p :: Covered(Elements(imports), p) <==> old(Covered(Elements(imports), p)) || dir <= p
    {
      MinimalRoots(added);
      MinimalRoots(added + {dir});
      assert forall p :: Covered(added + {dir}, p) <==> Covered(added, p) || dir <= p;
      if dir !in seenDirs {
        MinimalAgain(added, dir);
        assert Elements(imports + [dir]) == Elements(imports) + {dir};
        imports := FindMinimalPaths(imports + [dir]);
        seenDirs := seenDirs + {dir};
        assert forall f :: Inside(f, added) ==> Inside(f, added + {dir});
        added := added + {dir};
      } else {
        assert added + {dir} == added;
      }
    }

    /** A file that some added directory contains is recorded under the one root that contains it;
        any other file is dropped. */
    method AddFile(file: Path, kind: FileKind)
      requires Valid() && file != []
      modifies this`imports, this`protos, this`descriptors, this`seenFiles
      ensures Valid() && Elements(imports) == old(Elements(imports))
      ensures seenFiles == if Inside(file, added) then old(seenFiles) + {file} else old(seenFiles)
      ensures file in old(seenFiles) || !Inside(file, added) ==>
        protos == old(protos) && descriptors == old(descriptors)
      ensures file !in old(seenFiles) && Inside(file, added) && kind.Proto? ==>
        descriptors == old(descriptors) && |protos| == |old(protos)| + 1 && old(protos) <= protos
        && Names(Elements(imports), file, protos[|protos| - 1])
      ensures file !in old(seenFiles) && Inside(file, added) && kind.Descriptor? ==>
        protos == old(protos) && descriptors == old(descriptors) + [file]
    {
      if file in seenFiles {
        return;
      }
      hide Minimal, Inside, Names, Elements, Relative;
      var found, reordered := FindPathByImports(file, imports);
      FoundInside(added, imports, file, found);
      imports := reordered;
      if found.None? {
        return;
      }
      match kind {
        case Proto => protos := protos + [Relative(file[|found.value|..])];
        case Descriptor => descriptors := descriptors + [file];
      }
      seenFiles := seenFiles + {file};
    }
  }

  /** What the search among the minimal roots says about all directories. */
  lemma FoundInside(dirs: set<Path>, imports: seq<Path>, file: Path, found: Option<Path>)
    requires Elements(imports) == Minimal(dirs)
    requires found.Some? ==> found.value in imports && found.value < file
    requires found.None? ==> forall p :: p in imports ==> !(p < file)
    ensures found.Some? <==> Inside(file, dirs)
    ensures found.Some? ==> Names(Elements(imports), file, Relative(file[|found.value|..]))
  {
    InsideMinimal(dirs, file);
    assert forall p :: p in imports <==> p in Elements(imports);
    if found.Some? {
      TextDecides(found.value, file);
    }
  }

  lemma InsideMinimal(dirs: set<Path>, file: Path)
    ensures Inside(file, dirs) <==> Inside(file, Minimal(dirs))
  {
    if q :| q in dirs && q < file {
      var r := MinimalBelow(dirs, q);
      assert r < file;
    }
  }
}
