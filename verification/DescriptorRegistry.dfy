/** The registry of descriptors added at run time (internal/domain/descriptors/registry.go): a map
    from path to file under a lock, with a generation counter bumped on every mutation. */
module DescriptorRegistry {
  import opened Utf8

  /** A file descriptor: its path, its package and the packages around it, the full names it
      declares, and those of its services. */
  datatype File = File(path: Bytes, packages: set<Bytes>, names: set<Bytes>, services: set<Bytes>)

  /** The protobuf registry refuses a second file at a path, a second declaration of a name, and a
      name that is a declaration in one file and a package in another. */
  predicate Clash(a: File, b: File) {
    a.path == b.path || a.names * b.names != {} || a.names * b.packages != {} || a.packages * b.names != {}
  }

  // What full names stand for, as one table: the reference for `Clash`.

  datatype Symbol = Package | Declaration(path: Bytes)

  ghost predicate Holds(table: map<Bytes, Symbol>, f: File) {
    && (forall n :: n in f.names ==> n in table && table[n] == Declaration(f.path))
    && forall n :: n in f.packages ==> n in table && table[n] == Package
  }

  ghost predicate HoldsAll(table: map<Bytes, Symbol>, files: set<File>) {
    forall f :: f in files ==> Holds(table, f)
  }

  /** Files do not clash exactly if their paths differ and one table tells what every name of any of
      them stands for. No file declares one of its own packages. */
  lemma ClashFreeExactly(files: set<File>)
    requires forall f :: f in files ==> f.names !! f.packages
    ensures (forall f, g :: f in files && g in files && f != g ==> !Clash(f, g)) <==>
      && (forall f, g :: f in files && g in files && f != g ==> f.path != g.path)
      && exists table :: HoldsAll(table, files)
  {
    if forall f, g :: f in files && g in files && f != g ==> !Clash(f, g) {
      SymbolTable(files);
    }
    if table :| HoldsAll(table, files) {
      forall f, g | f in files && g in files && f != g && f.path != g.path ensures !Clash(f, g) {
        assert Holds(table, f) && Holds(table, g);
      }
    }
  }

  lemma SymbolTable(files: set<File>)
    requires forall f :: f in files ==> f.names !! f.packages
    requires forall f, g :: f in files && g in files && f != g ==> !Clash(f, g)
    ensures exists table :: HoldsAll(table, files)
  {
    var packages := set f, n | f in files && n in f.packages :: n;
    var declared := set f, n | f in files && n in f.names :: n;
    var table := map n | n in packages + declared :: if n in packages then Package else Declaration(Owner(files, n));
    forall f | f in files ensures Holds(table, f) {
      forall n | n in f.names ensures n in table && table[n] == Declaration(f.path) {
        forall g | g in files ensures n !in g.packages {
          assert f.names !! f.packages;
          assert n in g.packages ==> n in f.names * g.packages;
          assert f != g ==> !Clash(f, g);
        }
        OnlyOwner(files, f, n);
      }
    }
    assert HoldsAll(table, files);
  }

  ghost function Owner(files: set<File>, n: Bytes): Bytes {
    if f :| f in files && n in f.names then f.path else []
  }

  lemma OnlyOwner(files: set<File>, f: File, n: Bytes)
    requires forall f, g :: f in files && g in files && f != g ==> !Clash(f, g)
    requires f in files && n in f.names
    ensures Owner(files, n) == f.path
  {
    forall g | g in files && n in g.names ensures g == f {
      assert n in f.names * g.names;
    }
  }

  type Files = map<Bytes, File>

  /** Each method is one critical section. `history` records the files of every generation; the
      generations in between one call and the next can be seen by no one else. */
  class Registry {
    var files: Files
    var gen: nat
    ghost var history: seq<Files>

    ghost predicate Valid()
      reads this
    {
      && |history| == gen + 1 && history[gen] == files
      && forall p :: p in files ==> files[p].path == p
    }

    constructor ()
      ensures Valid() && files == map[] && gen == 0
    {
      files, gen, history := map[], 0, [map[]];
    }

    method Register(fd: File)
      requires Valid()
      modifies this
      ensures Valid() && files == old(files)[fd.path := fd] && gen == old(gen) + 1
      ensures history == old(history) + [files]
    {
      files := files[fd.path := fd];
      gen := gen + 1;
      history := history + [files];
    }

    method UnregisterByPath(path: Bytes) returns (removed: bool)
      requires Valid()
      modifies this
      ensures Valid() && removed == (path in old(files)) && files == old(files) - {path}
      ensures history == if removed then old(history) + [files] else old(history)
    {
      if path in files {
        files := files - {path};
        gen := gen + 1;
        history := history + [files];
        return true;
      }
      assert files - {path} == files;
      return false;
    }

    /** Deletes while it ranges over the map, one generation for each file removed. */
    method UnregisterByService(serviceID: Bytes) returns (removed: nat)
      requires Valid()
      modifies this
      ensures Valid() && forall p :: p in files ==> p in old(files) && files[p] == old(files)[p]
      ensures forall p :: p in old(files) ==> (p in files <==> serviceID !in old(files)[p].services)
      ensures removed == |old(files)| - |files| && gen == old(gen) + removed
      ensures old(history) <= history
    {
      removed := 0;
      var todo := files.Keys;
      while todo != {}
        invariant Valid() && todo <= files.Keys && old(history) <= history
        invariant files.Keys <= old(files).Keys && forall p :: p in files ==> files[p] == old(files)[p]
        invariant forall p :: p in old(files) && p !in todo ==>
          (p in files <==> serviceID !in old(files)[p].services)
        invariant |files| + removed == |old(files)| && gen == old(gen) + removed
        decreases todo
      {
        var path :| path in todo;
        if serviceID in files[path].services {
          ghost var before := files;
          files := files - {path};
          assert before.Keys == files.Keys + {path};
          gen := gen + 1;
          history := history + [files];
          removed := removed + 1;
        }
        todo := todo - {path};
      }
    }

    method Generation() returns (g: nat)
      requires Valid()
      ensures g == gen && history[g] == files
    {
      g := gen;
    }
  }
}
