/**
  Worked scenarios for one pass over a destination that mirrors the
  origin's root: a new file, an identical file, a changed file and an orphan
  file; names that differ only in letter case; and a depth-first walk step.
 */
module Scenarios {
  import opened FileTree
  import opened Reconcile

  const HELLO: Bytes := [104, 101, 108, 108, 111]
  const WORLD: Bytes := [119, 111, 114, 108, 100]
  const A: Path := ["a"]
  const B: Path := ["a", "b.txt"]
  const C: Path := ["a", "c.txt"]

  /** a/b.txt = "hello" in the origin, nothing in the destination: one Copied record. */
  lemma NewFileIsCopied(digest: Bytes -> Digest)
    ensures !PassFails(Tree({[], A}, map[B := HELLO]), Tree({[]}, map[]))
    ensures Target(Tree({[], A}, map[B := HELLO]), Tree({[]}, map[]), digest) == Tree({[], A}, map[B := HELLO])
    ensures Expected(Tree({[], A}, map[B := HELLO]), Tree({[]}, map[]), digest) == {Record(Copied, B)}
  {
    var origin, dest := Tree({[], A}, map[B := HELLO]), Tree({[]}, map[]);
    assert RecordFor(origin, dest, digest, B) == Some(Copied);
    SameEntriesSameTree(Target(origin, dest, digest), origin);
  }

  /** Identical a/b.txt on both sides: no change and no record. */
  lemma IdenticalFileIsLeftAlone(digest: Bytes -> Digest)
    ensures !PassFails(Tree({[], A}, map[B := HELLO]), Tree({[], A}, map[B := HELLO]))
    ensures Target(Tree({[], A}, map[B := HELLO]), Tree({[], A}, map[B := HELLO]), digest)
            == Tree({[], A}, map[B := HELLO])
    ensures Expected(Tree({[], A}, map[B := HELLO]), Tree({[], A}, map[B := HELLO]), digest) == {}
  {
    var t := Tree({[], A}, map[B := HELLO]);
    assert RecordFor(t, t, digest, B).None?;
    SameEntriesSameTree(Target(t, t, digest), t);
  }

  /** a/b.txt = "world" in the origin, "hello" in the destination: overwritten, one Updated record. */
  lemma ChangedFileIsUpdated(digest: Bytes -> Digest)
    requires digest(WORLD) != digest(HELLO)
    ensures !PassFails(Tree({[], A}, map[B := WORLD]), Tree({[], A}, map[B := HELLO]))
    ensures Target(Tree({[], A}, map[B := WORLD]), Tree({[], A}, map[B := HELLO]), digest)
            == Tree({[], A}, map[B := WORLD])
    ensures Expected(Tree({[], A}, map[B := WORLD]), Tree({[], A}, map[B := HELLO]), digest) == {Record(Updated, B)}
  {
    var origin, dest := Tree({[], A}, map[B := WORLD]), Tree({[], A}, map[B := HELLO]);
    assert RecordFor(origin, dest, digest, B) == Some(Updated);
    SameEntriesSameTree(Target(origin, dest, digest), origin);
  }

  /** a/c.txt only in the destination: removed, one Deleted record. */
  lemma OrphanFileIsDeleted(digest: Bytes -> Digest)
    ensures !PassFails(Tree({[], A}, map[]), Tree({[], A}, map[C := HELLO]))
    ensures Target(Tree({[], A}, map[]), Tree({[], A}, map[C := HELLO]), digest) == Tree({[], A}, map[])
    ensures Expected(Tree({[], A}, map[]), Tree({[], A}, map[C := HELLO]), digest) == {Record(Deleted, C)}
  {
    var origin, dest := Tree({[], A}, map[]), Tree({[], A}, map[C := HELLO]);
    assert Parent(C) == A;
    assert C != A && C != [];
    assert Orphan(origin, C);
    assert RecordFor(origin, dest, digest, C) == Some(Deleted);
    SameEntriesSameTree(Target(origin, dest, digest), origin);
  }

  const UPPER: Path := ["a", "B.txt"]

  /**
    Names are compared exactly: a/B.txt in the origin and a/b.txt with the
    same bytes in the destination are two different entries, so the first is
    copied and the second deleted.
   */
  lemma NamesMatchExactly(digest: Bytes -> Digest)
    ensures !PassFails(Tree({[], A}, map[UPPER := HELLO]), Tree({[], A}, map[B := HELLO]))
    ensures Target(Tree({[], A}, map[UPPER := HELLO]), Tree({[], A}, map[B := HELLO]), digest)
            == Tree({[], A}, map[UPPER := HELLO])
    ensures Expected(Tree({[], A}, map[UPPER := HELLO]), Tree({[], A}, map[B := HELLO]), digest)
            == {Record(Copied, UPPER), Record(Deleted, B)}
  {
    var origin, dest := Tree({[], A}, map[UPPER := HELLO]), Tree({[], A}, map[B := HELLO]);
    assert UPPER != B;
    assert Parent(B) == A && B != A && B != [];
    assert Orphan(origin, B);
    assert RecordFor(origin, dest, digest, UPPER) == Some(Copied);
    assert RecordFor(origin, dest, digest, B) == Some(Deleted);
    SameEntriesSameTree(Target(origin, dest, digest), origin);
  }

  /**
    os.walk goes depth-first: once the root and a are visited, a/x may come
    next although b, a shallower directory, is still waiting.
   */
  lemma DepthFirstStepAllowed()
    ensures ParentVisited(["a", "x"], {[], A})
    ensures !Shortest(["a", "x"], {["a", "x"], ["b"]})
  {
    assert Parent(["a", "x"]) == A;
    var pending: set<Path> := {["a", "x"], ["b"]};
    assert ["b"] in pending && |["b"]| < |["a", "x"]|;
  }
}
