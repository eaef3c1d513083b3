/**
  The abstract filesystem a synchronisation pass works on. A tree is the set
  of its directories and the bytes of each of its files, every entry named by
  its path relative to the tree's root.
 */
module FileTree {

  /** One component of a path: a directory-entry name. */
  type Name = string

  /** A path relative to a tree's root, as its names; the root itself is []. */
  type Path = seq<Name>

  type Bytes = seq<bv8>

  datatype Option<T> = None | Some(value: T)

  datatype Tree = Tree(dirs: set<Path>, files: map<Path, Bytes>)

  /** The directory that holds the entry at a non-root path. */
  function Parent(p: Path): (q: Path)
    requires p != []
    ensures |q| == |p| - 1 && q == p[..|q|]
  {
    p[..|p| - 1]
  }

  /** Every non-root member's parent is a member as well. */
  ghost predicate ParentClosed(s: set<Path>) {
    forall d :: d in s && d != [] ==> Parent(d) in s
  }

  /**
    A tree as a filesystem can hold it: directories hang under directories,
    every file sits in a directory, and no path is both a file and a directory.
   */
  ghost predicate WellFormed(t: Tree) {
    && ParentClosed(t.dirs)
    && forall f :: f in t.files ==> f != [] && Parent(f) in t.dirs && f !in t.dirs
  }

  /** os.path.exists: some entry, file or directory, is at `p`. */
  predicate Exists(t: Tree, p: Path) {
    p in t.dirs || p in t.files
  }

  /** The bytes of the file at `p`, if there is one. */
  function FileAt(t: Tree, p: Path): Option<Bytes>
  {
    if p in t.files then Some(t.files[p]) else None
  }

  /** The path itself and every directory above it, down from the root. */
  function Prefixes(p: Path): (r: set<Path>)
    ensures forall k :: 0 <= k <= |p| ==> p[..k] in r
    ensures forall q :: q in r ==> |q| <= |p| && q == p[..|q|]
  {
    set k | 0 <= k <= |p| :: p[..k]
  }

  /** In a parent-closed set every ancestor of a member is a member. */
  lemma {:induction false} AncestorIn(s: set<Path>, d: Path, k: nat)
    requires ParentClosed(s) && d in s && k <= |d|
    ensures d[..k] in s
    decreases |d| - k
  {
    if k == |d| {
      assert d[..k] == d;
    } else {
      var up := Parent(d);
      AncestorIn(s, up, k);
      assert up[..k] == d[..k];
    }
  }

  /** Two trees with the same directories and the same file at every path are equal. */
  lemma SameEntriesSameTree(t: Tree, u: Tree)
    requires t.dirs == u.dirs
    requires forall p :: FileAt(t, p) == FileAt(u, p)
    ensures t == u
  {
    forall p | p in t.files ensures p in u.files && t.files[p] == u.files[p] {
      assert FileAt(t, p) == FileAt(u, p);
    }
    forall p | p in u.files ensures p in t.files {
      assert FileAt(t, p) == FileAt(u, p);
    }
    assert t.files == u.files;
  }

  /** No member of `s` is shorter than `d`. */
  predicate Shortest(d: Path, s: set<Path>) {
    d in s && forall e :: e in s ==> |d| <= |e|
  }

  /** A non-empty set of paths has a member no other member is shorter than. */
  lemma {:induction false} ShortestExists(s: set<Path>)
    requires s != {}
    ensures exists d :: Shortest(d, s)
  {
    var x :| x in s;
    if s == {x} {
      assert Shortest(x, s);
    } else {
      ShortestExists(s - {x});
      var y :| Shortest(y, s - {x});
      if |x| <= |y| {
        assert Shortest(x, s);
      } else {
        assert Shortest(y, s);
      }
    }
  }

  /** The walk may visit `d` next: it is the root, or its parent has been visited. */
  predicate ParentVisited(d: Path, done: set<Path>) {
    d == [] || Parent(d) in done
  }

  /**
    While directories of a parent-closed set are pending, one of them has its
    parent visited already, so a parent-first walk never gets stuck.
   */
  lemma ReadyExists(dirs: set<Path>, pending: set<Path>, done: set<Path>)
    requires ParentClosed(dirs) && pending != {} && pending <= dirs
    requires forall e :: e in dirs ==> e in pending || e in done
    ensures exists d :: d in pending && ParentVisited(d, done)
  {
    ShortestExists(pending);
    var m :| Shortest(m, pending);
    if m != [] {
      assert Parent(m) !in pending;
    }
    assert ParentVisited(m, done);
  }

  /** A well-formed tree has its root directory, or no entries at all. */
  lemma EmptyUnlessRooted(t: Tree)
    requires WellFormed(t)
    ensures [] in t.dirs || (t.dirs == {} && t.files == map[])
  {
    if t.dirs != {} {
      var d :| d in t.dirs;
      AncestorIn(t.dirs, d, 0);
      assert d[..0] == [];
    }
  }
}
