/**
  sync_folders as an imperative pass over a filesystem object: the origin
  tree, the destination tree and the change log are fields, and the pass
  walks the origin top-down, creating directories, copying, overwriting and
  deleting files and appending records as it goes.
 */
module SyncFolders {
  import opened FileTree
  import opened Reconcile
  import PassProperties

  class FileSystem {
    var origin: Tree
    var dest: Tree
    var log: seq<Record>

    ghost predicate Valid()
      reads this
    {
      WellFormed(origin) && WellFormed(dest)
    }

    constructor (origin: Tree, dest: Tree)
      requires WellFormed(origin) && WellFormed(dest)
      ensures Valid()
      ensures this.origin == origin && this.dest == dest && log == []
    {
      this.origin := origin;
      this.dest := dest;
      log := [];
    }

    /** log_change without the timestamp and the file append. */
    method LogChange(action: Action, p: Path)
      modifies this
      ensures log == old(log) + [Record(action, p)]
      ensures origin == old(origin) && dest == old(dest)
    {
      log := log + [Record(action, p)];
    }

    /** os.makedirs: creates `d` and every missing directory above it. */
    method MakeDirs(d: Path)
      requires Valid()
      requires forall k :: 0 <= k <= |d| ==> d[..k] !in dest.files
      modifies this
      ensures Valid()
      ensures dest == old(dest).(dirs := old(dest).dirs + Prefixes(d))
      ensures origin == old(origin) && log == old(log)
    {
      var dirs := dest.dirs + Prefixes(d);
      forall q | q in dirs && q != [] ensures Parent(q) in dirs {
        if q in Prefixes(d) {
          assert Parent(q) == d[..|q| - 1];
        }
      }
      dest := dest.(dirs := dirs);
    }

    /** shutil.copy2 of origin file `p` to the same relative path in the destination. */
    method Copy2(p: Path)
      requires Valid()
      requires p in origin.files && Parent(p) in dest.dirs && p !in dest.dirs
      modifies this
      ensures Valid()
      ensures dest == old(dest).(files := old(dest).files[p := old(origin).files[p]])
      ensures origin == old(origin) && log == old(log)
    {
      dest := dest.(files := dest.files[p := origin.files[p]]);
    }

    /** os.remove: deletes the file at `p`; fails on a directory or on nothing. */
    method Remove(p: Path) returns (ok: bool)
      requires Valid()
      modifies this
      ensures Valid()
      ensures ok <==> p in old(dest).files
      ensures dest == old(dest).(files := old(dest).files - {p})
      ensures origin == old(origin) && log == old(log)
    {
      ok := p in dest.files;
      dest := dest.(files := dest.files - {p});
    }

    /**
      Lines 42-55 of syncFolders.py for origin file `p`: copy it when the
      destination has nothing there, overwrite it when the digests differ,
      and fail when the destination has a directory there (md5 cannot open
      it).
     */
    method SyncFile(p: Path, digest: Bytes -> Digest, ghost dest0: Tree, ghost log0: seq<Record>,
                    ghost handled: set<Path>)
      returns (ok: bool)
      requires Valid()
      requires p in origin.files && Parent(p) in dest.dirs
      requires Progress(origin, dest, log, dest0, log0, digest, handled) && p !in handled
      modifies this
      ensures Valid() && origin == old(origin) && dest.dirs == old(dest).dirs
      ensures ok <==> p !in old(dest).dirs
      ensures ok ==> Progress(origin, dest, log, dest0, log0, digest, handled + {p})
      ensures !ok ==> dest == old(dest) && log == old(log)
    {
      ghost var destBefore, logBefore := dest, log;
      assert FileAt(dest, p) == FileAt(dest0, p);
      if Exists(dest, p) {
        var src := Md5(origin, p, digest);
        var dst := Md5(dest, p, digest);
        if dst.None? {
          // md5 opens a directory: IsADirectoryError ends the pass
          return false;
        }
        if src != dst {
          Copy2(p);
          LogChange(Updated, p);
        }
      } else {
        Copy2(p);
        LogChange(Copied, p);
      }
      ProgressStep(origin, destBefore, logBefore, dest0, log0, digest, handled, p, dest, log);
      ok := true;
    }

    /**
      The loop over the files of origin directory `d` (syncFolders.py:41-55):
      a file missing from the destination is copied and logged as Copied, one
      whose digest differs is overwritten and logged as Updated, and md5 fails
      when the destination has a directory of that name.
     */
    method SyncFiles(d: Path, digest: Bytes -> Digest, ghost dest0: Tree, ghost log0: seq<Record>,
                     ghost handled0: set<Path>)
      returns (ok: bool, ghost handled: set<Path>)
      requires Valid()
      requires d in origin.dirs && d in dest.dirs
      requires Progress(origin, dest, log, dest0, log0, digest, handled0)
      requires forall p :: p in handled0 ==> p != [] && Parent(p) != d
      requires forall q :: q != [] && Parent(q) == d ==> (q in dest.dirs <==> q in dest0.dirs)
      modifies this
      ensures Valid() && origin == old(origin) && dest.dirs == old(dest).dirs
      ensures Progress(origin, dest, log, dest0, log0, digest, handled)
      ensures handled0 <= handled
      ensures forall p :: p in handled && p !in handled0 ==> p in origin.files && Parent(p) == d
      ensures ok ==> forall p :: p in origin.files && Parent(p) == d ==> p in handled && p !in dest0.dirs
      ensures !ok ==> exists q :: q in origin.files && Parent(q) == d && q in dest0.dirs
    {
      var pending := set p | p in origin.files.Keys && p != [] && Parent(p) == d;
      handled := handled0;
      ghost var visited: set<Path> := {};
      while pending != {}
        invariant Valid() && origin == old(origin) && dest.dirs == old(dest).dirs
        invariant pending !! visited
        invariant forall p :: p in pending + visited <==> p in origin.files && Parent(p) == d
        invariant handled == handled0 + visited
        invariant Progress(origin, dest, log, dest0, log0, digest, handled)
        invariant forall p :: p in visited ==> p !in dest0.dirs
        decreases pending
      {
        var p :| p in pending;
        ok := SyncFile(p, digest, dest0, log0, handled);
        if !ok {
          return;
        }
        handled := handled + {p};
        visited := visited + {p};
        pending := pending - {p};
      }
      ok := true;
    }

    /**
      The deletion scan of destination directory `d` (syncFolders.py:57-64):
      every entry whose name no origin entry in `d` has is removed and logged
      as Deleted; os.remove fails when that entry is a directory.
     */
    method RemoveOrphans(d: Path, digest: Bytes -> Digest, ghost dest0: Tree, ghost log0: seq<Record>,
                         ghost handled0: set<Path>)
      returns (ok: bool, ghost handled: set<Path>)
      requires Valid()
      requires d in origin.dirs && d in dest.dirs
      requires Progress(origin, dest, log, dest0, log0, digest, handled0)
      requires forall p :: p in handled0 && p != [] && Parent(p) == d ==> p in origin.files
      requires forall q :: q != [] && Parent(q) == d ==> (q in dest.dirs <==> q in dest0.dirs)
      modifies this
      ensures Valid() && origin == old(origin) && dest.dirs == old(dest).dirs
      ensures Progress(origin, dest, log, dest0, log0, digest, handled)
      ensures handled0 <= handled
      ensures forall p :: p in handled && p !in handled0 ==> p in dest0.files && Orphan(origin, p) && Parent(p) == d
      ensures ok ==> forall p :: p in dest0.files && Orphan(origin, p) && Parent(p) == d ==> p in handled
      ensures ok <==> forall q :: q in dest0.dirs && q != [] && Parent(q) == d ==> Exists(origin, q)
    {
      var listing := set p | p in dest.dirs + dest.files.Keys && p != [] && Parent(p) == d;
      var pending := listing;
      handled := handled0;
      ghost var visited: set<Path> := {};
      while pending != {}
        invariant Valid() && origin == old(origin) && dest.dirs == old(dest).dirs
        invariant pending !! visited && pending <= listing && visited <= listing
        invariant forall p :: p in listing ==> p in pending || p in visited
        invariant forall p :: p in pending ==> Exists(dest, p)
        invariant handled0 <= handled
        invariant forall p :: p in handled && p !in handled0 ==> p in visited && p in dest0.files && Orphan(origin, p)
        invariant Progress(origin, dest, log, dest0, log0, digest, handled)
        invariant forall p :: p in visited && !Exists(origin, p) ==> p in handled
        invariant forall p :: p in visited && p in dest.dirs ==> Exists(origin, p)
        decreases pending
      {
        var p :| p in pending;
        if !Exists(origin, p) {
          assert p !in handled;
          ok := DeleteEntry(p, digest, dest0, log0, handled);
          if !ok {
            return;
          }
          handled := handled + {p};
        }
        visited := visited + {p};
        pending := pending - {p};
      }
      ok := true;
      forall p | p in dest0.files && Orphan(origin, p) && Parent(p) == d ensures p in handled {
        assert p !in handled0;
        assert FileAt(old(dest), p) == FileAt(dest0, p);
      }
    }

    /**
      Lines 61-63 of syncFolders.py for an entry `p` the origin lacks:
      os.remove deletes it and the deletion is logged; os.remove fails, and
      the pass ends with an OSError, when `p` is a directory.
     */
    method DeleteEntry(p: Path, digest: Bytes -> Digest, ghost dest0: Tree, ghost log0: seq<Record>,
                       ghost handled: set<Path>)
      returns (ok: bool)
      requires Valid()
      requires p != [] && Parent(p) in origin.dirs && !Exists(origin, p)
      requires Progress(origin, dest, log, dest0, log0, digest, handled) && p !in handled
      modifies this
      ensures Valid() && origin == old(origin) && dest.dirs == old(dest).dirs
      ensures ok <==> p in old(dest).files
      ensures dest.files == old(dest).files - {p}
      ensures ok ==> log == old(log) + [Record(Deleted, p)]
      ensures ok ==> Progress(origin, dest, log, dest0, log0, digest, handled + {p})
      ensures !ok ==> dest == old(dest) && log == old(log)
    {
      ghost var destBefore, logBefore := dest, log;
      assert FileAt(dest, p) == FileAt(dest0, p);
      ok := Remove(p);
      if ok {
        LogChange(Deleted, p);
        ProgressStep(origin, destBefore, logBefore, dest0, log0, digest, handled, p, dest, log);
      } else {
        // os.remove on a directory
        assert dest.files == destBefore.files;
      }
    }

    /**
      Lines 36-38 of syncFolders.py: create the destination directory when
      nothing is there. In a top-down walk the directories above it already
      exist, so os.makedirs adds exactly this one.
     */
    method EnsureDir(d: Path, ghost dest0: Tree, ghost done: set<Path>)
      requires Valid()
      requires d !in dest.files && (d != [] ==> Parent(d) in done)
      requires ParentClosed(done)
      requires dest.dirs == dest0.dirs + done
      modifies this
      ensures Valid() && origin == old(origin) && log == old(log)
      ensures dest == old(dest).(dirs := dest0.dirs + done + {d})
    {
      if !Exists(dest, d) {
        forall k | 0 <= k < |d| ensures d[..k] in done {
          AncestorIn(done, Parent(d), k);
          assert Parent(d)[..k] == d[..k];
        }
        forall q | q in Prefixes(d) ensures q in done + {d} {
          if |q| < |d| {
            assert q == d[..|q|];
          } else {
            assert q == d[..|d|] == d;
          }
        }
        assert d[..|d|] == d;
        MakeDirs(d);
      }
    }

    /**
      One iteration of the walk (syncFolders.py:33-64): make sure the
      destination has directory `d`, reconcile the files of origin directory
      `d`, then scan the destination directory for entries to delete. It fails
      exactly when `d` is blocked in the destination as the pass found it.
     */
    method VisitDir(d: Path, digest: Bytes -> Digest, ghost dest0: Tree, ghost log0: seq<Record>,
                    ghost done: set<Path>, ghost handled0: set<Path>)
      returns (ok: bool, ghost handled: set<Path>)
      requires Valid()
      requires d in origin.dirs && d !in done && (d != [] ==> Parent(d) in done)
      requires ParentClosed(done) && done <= origin.dirs
      requires dest.dirs == dest0.dirs + done
      requires Progress(origin, dest, log, dest0, log0, digest, handled0)
      requires forall p :: p in handled0 ==> p != [] && Parent(p) in done
      requires forall p :: p in handled0 ==> p in origin.files || (p in dest0.files && Orphan(origin, p))
      modifies this
      ensures Valid() && origin == old(origin)
      ensures ok <==> !BlockedAt(origin, dest0, d)
      ensures dest0.dirs + done <= dest.dirs <= dest0.dirs + done + {d}
      ensures ok ==> dest.dirs == dest0.dirs + done + {d}
      ensures Progress(origin, dest, log, dest0, log0, digest, handled)
      ensures handled0 <= handled
      ensures forall p :: p in handled && p !in handled0 ==>
                p != [] && Parent(p) == d && (p in origin.files || (p in dest0.files && Orphan(origin, p)))
      ensures ok ==> forall p :: p != [] && Parent(p) == d && RecordFor(origin, dest0, digest, p).Some? ==> p in handled
    {
      handled := handled0;
      assert FileAt(dest, d) == FileAt(dest0, d);
      if d in dest.files {
        // the destination has a file where the directory belongs: copy2 or
        // listdir below it raises NotADirectoryError
        ok := false;
        return;
      }
      EnsureDir(d, dest0, done);
      ok, handled := SyncFiles(d, digest, dest0, log0, handled);
      if !ok {
        return;
      }
      ghost var afterFiles := handled;
      ok, handled := RemoveOrphans(d, digest, dest0, log0, handled);
      if ok {
        forall p | p != [] && Parent(p) == d && RecordFor(origin, dest0, digest, p).Some? ensures p in handled {
          if p in origin.files {
            assert p in afterFiles;
          }
        }
      }
    }

    /**
      The state of the walk once the directories in `done` are visited: they
      are a top-down prefix of the origin's directories, all mirrored in the
      destination and none blocked, and every path in them that the pass
      changes is handled.
     */
    ghost predicate Walked(digest: Bytes -> Digest, dest0: Tree, log0: seq<Record>,
                           done: set<Path>, handled: set<Path>)
      reads this
    {
      && ParentClosed(done) && done <= origin.dirs
      && dest.dirs == dest0.dirs + done
      && Progress(origin, dest, log, dest0, log0, digest, handled)
      && (forall p :: p in handled ==> p != [] && Parent(p) in done)
      && (forall p :: p in handled ==> p in origin.files || (p in dest0.files && Orphan(origin, p)))
      && (forall p :: p != [] && Parent(p) in done && RecordFor(origin, dest0, digest, p).Some? ==> p in handled)
      && (forall e :: e in done ==> !BlockedAt(origin, dest0, e))
    }

    /** A successful visit of `d` extends the walk by `d`. */
    lemma WalkStep(digest: Bytes -> Digest, dest0: Tree, log0: seq<Record>,
                   done: set<Path>, handled0: set<Path>, d: Path, handled: set<Path>)
      requires ParentClosed(done) && done <= origin.dirs
      requires d in origin.dirs && (d != [] ==> Parent(d) in done)
      requires forall p :: p in handled0 ==> p != [] && Parent(p) in done
      requires forall p :: p in handled0 ==> p in origin.files || (p in dest0.files && Orphan(origin, p))
      requires forall p :: p != [] && Parent(p) in done && RecordFor(origin, dest0, digest, p).Some? ==> p in handled0
      requires forall e :: e in done ==> !BlockedAt(origin, dest0, e)
      requires !BlockedAt(origin, dest0, d)
      requires dest.dirs == dest0.dirs + done + {d}
      requires Progress(origin, dest, log, dest0, log0, digest, handled)
      requires handled0 <= handled
      requires forall p :: p in handled && p !in handled0 ==>
                 p != [] && Parent(p) == d && (p in origin.files || (p in dest0.files && Orphan(origin, p)))
      requires forall p :: p != [] && Parent(p) == d && RecordFor(origin, dest0, digest, p).Some? ==> p in handled
      ensures Walked(digest, dest0, log0, done + {d}, handled)
    {
    }

    /** A walk over every origin directory has completed the pass. */
    lemma WalkFinished(digest: Bytes -> Digest, dest0: Tree, log0: seq<Record>, handled: set<Path>)
      requires WellFormed(origin)
      requires Walked(digest, dest0, log0, origin.dirs, handled)
      ensures !PassFails(origin, dest0)
      ensures dest == Target(origin, dest0, digest)
      ensures |log0| <= |log| && log[..|log0|] == log0 && NoDuplicates(log[|log0|..])
      ensures Elements(log[|log0|..]) == Expected(origin, dest0, digest)
    {
      ProgressComplete(origin, dest, log, dest0, log0, digest, handled);
    }

    /**
      One reconciliation pass (syncFolders.py:22-64). The walk visits every
      origin directory, each after its parent, in an order the model leaves
      open. The pass either completes, leaving the destination at Target and
      the log extended by exactly the Expected records, or stops with an
      error at the first blocked directory; it never writes to the origin.
     */
    method SyncFolders(digest: Bytes -> Digest) returns (ok: bool)
      requires Valid()
      modifies this
      ensures Valid() && origin == old(origin)
      ensures ok <==> !PassFails(origin, old(dest))
      ensures ok ==> dest == Target(origin, old(dest), digest)
      ensures |old(log)| <= |log| && log[..|old(log)|] == old(log)
      ensures NoDuplicates(log[|old(log)|..])
      ensures ok ==> Elements(log[|old(log)|..]) == Expected(origin, old(dest), digest)
      ensures !ok ==> Elements(log[|old(log)|..]) <= Expected(origin, old(dest), digest)
      ensures !ok ==> old(dest).dirs <= dest.dirs <= old(dest).dirs + origin.dirs
      ensures !ok ==> forall p :: FileAt(dest, p) == FileAt(old(dest), p)
                               || FileAt(dest, p) == TargetAt(origin, old(dest), digest, p)
    {
      ghost var dest0, log0 := dest, log;
      ProgressStart(origin, dest, log, digest);
      ghost var handled: set<Path> := {};
      var done: set<Path> := {};
      var pending := origin.dirs;
      while pending != {}
        invariant Valid() && origin == old(origin)
        invariant pending !! done && pending <= origin.dirs
        invariant forall e :: e in origin.dirs ==> e in pending || e in done
        invariant Walked(digest, dest0, log0, done, handled)
        decreases pending
      {
        // os.walk is top-down: any directory whose parent has been visited may come next
        ReadyExists(origin.dirs, pending, done);
        var d :| d in pending && ParentVisited(d, done);
        ghost var handled0 := handled;
        ok, handled := VisitDir(d, digest, dest0, log0, done, handled);
        if !ok {
          assert done + {d} <= origin.dirs;
          ProgressPartial(origin, dest, log, dest0, log0, digest, handled);
          return;
        }
        WalkStep(digest, dest0, log0, done, handled0, d, handled);
        done := done + {d};
        pending := pending - {d};
      }
      ok := true;
      WalkFinished(digest, dest0, log0, handled);
    }
  }

  /**
    Two iterations of the driver loop (syncFolders.py:86-88) with no change
    to the origin in between. `mid` is the log after the first pass. When the
    first pass completes, the second one completes too, appends nothing to the
    log and leaves the destination as the first pass left it. An origin that
    is not a directory (os.walk yields nothing for it) changes nothing at all.
    After a failed pass the exception ends the script, so there is no second.
   */
  method SyncTwice(fs: FileSystem, digest: Bytes -> Digest) returns (first: bool, second: bool, ghost mid: seq<Record>)
    requires fs.Valid()
    modifies fs
    ensures fs.Valid() && fs.origin == old(fs.origin)
    ensures first <==> !PassFails(fs.origin, old(fs.dest))
    ensures first ==> second
    ensures first ==> fs.dest == Target(fs.origin, old(fs.dest), digest)
    ensures first && [] in fs.origin.dirs ==>
              fs.dest.dirs == fs.origin.dirs && fs.dest.files.Keys == fs.origin.files.Keys
    ensures [] !in fs.origin.dirs ==> first && fs.dest == old(fs.dest) && fs.log == old(fs.log)
    ensures |old(fs.log)| <= |mid| && mid[..|old(fs.log)|] == old(fs.log)
    ensures NoDuplicates(mid[|old(fs.log)|..])
    ensures first ==> Elements(mid[|old(fs.log)|..]) == Expected(fs.origin, old(fs.dest), digest)
    ensures fs.log == mid
  {
    first := fs.SyncFolders(digest);
    mid := fs.log;
    if [] !in fs.origin.dirs {
      PassProperties.RootlessOriginChangesNothing(fs.origin, old(fs.dest), digest);
      PassProperties.RootlessOriginChangesNothing(fs.origin, fs.dest, digest);
      FirstLogged(mid[|old(fs.log)|..]);
      assert mid == old(fs.log);
    }
    if !first {
      second := false;
      return;
    }
    if [] in fs.origin.dirs {
      PassProperties.SecondPassChangesNothing(fs.origin, old(fs.dest), digest);
      PassProperties.CompletedPassMirrors(fs.origin, old(fs.dest), digest);
    }
    second := fs.SyncFolders(digest);
    FirstLogged(fs.log[|mid|..]);
    assert fs.log == mid;
  }
}
