/**
  What a completed reconciliation pass guarantees: the destination mirrors
  the origin's directories and files, every change is detected by digest and
  logged once, orphan files go and nothing the origin has is deleted, and a
  second pass over an unchanged origin does nothing.
 */
module PassProperties {
  import opened FileTree
  import opened Reconcile

  /** The preconditions of a pass that completes on a real origin directory. */
  ghost predicate Completes(origin: Tree, dest: Tree) {
    && WellFormed(origin) && WellFormed(dest)
    && [] in origin.dirs
    && !PassFails(origin, dest)
  }

  /**
    When the pass completes, every destination directory is an origin
    directory: a destination subdirectory with no origin counterpart would
    have stopped the pass.
   */
  lemma {:induction false} DestDirInOrigin(origin: Tree, dest: Tree, q: Path)
    requires Completes(origin, dest)
    requires q in dest.dirs
    ensures q in origin.dirs
    decreases |q|
  {
    if q != [] {
      DestDirInOrigin(origin, dest, Parent(q));
      assert !BlockedAt(origin, dest, Parent(q));
    }
  }

  /**
    Directory mirroring and completeness: after a completed pass the
    destination has exactly the origin's directories and the origin's file
    paths, and every file has the digest of its origin counterpart.
   */
  lemma CompletedPassMirrors(origin: Tree, dest: Tree, digest: Bytes -> Digest)
    requires Completes(origin, dest)
    ensures Target(origin, dest, digest).dirs == origin.dirs
    ensures Target(origin, dest, digest).files.Keys == origin.files.Keys
    ensures forall p :: p in origin.files ==>
              digest(Target(origin, dest, digest).files[p]) == digest(origin.files[p])
  {
    var target := Target(origin, dest, digest);
    forall q | q in dest.dirs ensures q in origin.dirs {
      DestDirInOrigin(origin, dest, q);
    }
    forall p | p in target.files ensures p in origin.files {
      assert FileAt(target, p).Some?;
    }
    forall p | p in origin.files ensures p in target.files {
      assert FileAt(target, p).Some?;
    }
    forall p | p in origin.files ensures digest(target.files[p]) == digest(origin.files[p]) {
      assert FileAt(target, p) == TargetAt(origin, dest, digest, p);
    }
  }

  /** With a digest that tells different contents apart, the destination becomes an exact copy. */
  lemma CompletedPassCopiesExactly(origin: Tree, dest: Tree, digest: Bytes -> Digest)
    requires Completes(origin, dest)
    requires forall a, b :: digest(a) == digest(b) ==> a == b
    ensures Target(origin, dest, digest) == origin
  {
    CompletedPassMirrors(origin, dest, digest);
    var target := Target(origin, dest, digest);
    forall p | p in origin.files ensures target.files[p] == origin.files[p] {
    }
    assert target.files == origin.files;
  }

  /**
    Idempotence: a second pass over the unchanged origin completes, logs
    nothing and leaves the destination as the first pass left it.
   */
  lemma SecondPassChangesNothing(origin: Tree, dest: Tree, digest: Bytes -> Digest)
    requires Completes(origin, dest)
    ensures Completes(origin, Target(origin, dest, digest))
    ensures Target(origin, Target(origin, dest, digest), digest) == Target(origin, dest, digest)
    ensures Expected(origin, Target(origin, dest, digest), digest) == {}
  {
    var once := Target(origin, dest, digest);
    CompletedPassMirrors(origin, dest, digest);
    assert WellFormed(once);
    forall d | d in origin.dirs ensures !BlockedAt(origin, once, d) {
    }
    forall p ensures RecordFor(origin, once, digest, p).None? {
    }
    var twice := Target(origin, once, digest);
    forall p ensures FileAt(twice, p) == FileAt(once, p) {
    }
    SameEntriesSameTree(twice, once);
    assert Expected(origin, once, digest) == {};
  }

  /**
    Change detection for a file the origin has: it is copied, with one Copied
    record, when the destination lacks it; it is overwritten, with one Updated
    record, exactly when the digests differ; otherwise neither the file nor
    the log changes. In every case no other record names its path.
   */
  lemma OriginFileOutcome(origin: Tree, dest: Tree, digest: Bytes -> Digest, p: Path)
    requires p in origin.files
    ensures p !in dest.files ==>
              && Record(Copied, p) in Expected(origin, dest, digest)
              && FileAt(Target(origin, dest, digest), p) == Some(origin.files[p])
    ensures p in dest.files ==>
              (Record(Updated, p) in Expected(origin, dest, digest) <==> digest(origin.files[p]) != digest(dest.files[p]))
    ensures p in dest.files && digest(origin.files[p]) != digest(dest.files[p]) ==>
              FileAt(Target(origin, dest, digest), p) == Some(origin.files[p])
    ensures p in dest.files && digest(origin.files[p]) == digest(dest.files[p]) ==>
              && FileAt(Target(origin, dest, digest), p) == Some(dest.files[p])
              && forall a :: Record(a, p) !in Expected(origin, dest, digest)
    ensures forall a :: Record(a, p) in Expected(origin, dest, digest) ==>
              a == (if p in dest.files then Updated else Copied)
  {
    var e := Expected(origin, dest, digest);
    if p !in dest.files {
      assert RecordFor(origin, dest, digest, p) == Some(Copied);
      assert Record(Copied, p) in e;
    } else if digest(origin.files[p]) != digest(dest.files[p]) {
      assert RecordFor(origin, dest, digest, p) == Some(Updated);
      assert Record(Updated, p) in e;
    }
  }

  /**
    Deletion: a destination file is removed, with one Deleted record, exactly
    when its directory is visited and the origin has no entry of its name
    there; any file whose name the origin has survives the pass.
   */
  lemma DestFileOutcome(origin: Tree, dest: Tree, digest: Bytes -> Digest, p: Path)
    requires p in dest.files
    ensures Record(Deleted, p) in Expected(origin, dest, digest) <==> Orphan(origin, p)
    ensures p in Target(origin, dest, digest).files <==> !Orphan(origin, p)
    ensures Exists(origin, p) ==> p in Target(origin, dest, digest).files
  {
    assert FileAt(Target(origin, dest, digest), p) == TargetAt(origin, dest, digest, p);
    if Orphan(origin, p) {
      assert RecordFor(origin, dest, digest, p) == Some(Deleted);
      assert Record(Deleted, p) in Expected(origin, dest, digest);
    }
  }

  /** A pass logs at most one record per destination path. */
  lemma OneRecordPerPath(origin: Tree, dest: Tree, digest: Bytes -> Digest, r: Record, s: Record)
    requires r in Expected(origin, dest, digest) && s in Expected(origin, dest, digest)
    requires r.path == s.path
    ensures r == s
  {
  }

  /** Paths outside the visited directories are left alone. */
  lemma UnvisitedUntouched(origin: Tree, dest: Tree, digest: Bytes -> Digest, p: Path)
    requires WellFormed(origin)
    requires p == [] || Parent(p) !in origin.dirs
    ensures FileAt(Target(origin, dest, digest), p) == FileAt(dest, p)
    ensures forall a :: Record(a, p) !in Expected(origin, dest, digest)
  {
    assert FileAt(Target(origin, dest, digest), p) == TargetAt(origin, dest, digest, p);
  }

  /**
    An origin that is not a directory, for which os.walk yields nothing: the
    pass completes at once, logs nothing and leaves the destination alone.
   */
  lemma RootlessOriginChangesNothing(origin: Tree, dest: Tree, digest: Bytes -> Digest)
    requires WellFormed(origin) && [] !in origin.dirs
    ensures !PassFails(origin, dest)
    ensures Target(origin, dest, digest) == dest
    ensures Expected(origin, dest, digest) == {}
  {
    EmptyUnlessRooted(origin);
    var target := Target(origin, dest, digest);
    forall p ensures FileAt(target, p) == FileAt(dest, p) {
      assert FileAt(target, p) == TargetAt(origin, dest, digest, p);
    }
    SameEntriesSameTree(target, dest);
    forall p ensures RecordFor(origin, dest, digest, p).None? {
    }
  }
}
