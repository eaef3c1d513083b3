/**
  What one pass of sync_folders does to a destination tree, stated per path
  and independently of the order in which the pass visits directories and
  entries: the file each destination path ends up holding, the change record
  logged for it, and the situations in which the pass stops with an error.
 */
module Reconcile {
  import opened FileTree

  /** Hex digest of a file's bytes (md5 in the source). */
  type Digest = string

  datatype Action = Copied | Updated | Deleted

  /** One log line: the action and the destination path it concerns. */
  datatype Record = Record(action: Action, path: Path)

  /**
    md5(file_path): the digest of the file at `p`; None when no regular file
    can be opened there (nothing there, or a directory).
   */
  function Md5(t: Tree, p: Path, digest: Bytes -> Digest): Option<Digest>
  {
    if p in t.files then Some(digest(t.files[p])) else None
  }

  /** md5 reads nothing but the bytes: equal contents give equal digests wherever they are stored. */
  lemma Md5ByContent(t: Tree, p: Path, u: Tree, q: Path, digest: Bytes -> Digest)
    requires FileAt(t, p) == FileAt(u, q)
    ensures Md5(t, p, digest) == Md5(u, q, digest)
  {
  }

  /** open() of a directory fails, so a directory has no digest. */
  lemma Md5OfDirectory(t: Tree, p: Path, digest: Bytes -> Digest)
    requires WellFormed(t) && p in t.dirs
    ensures Md5(t, p, digest).None?
  {
  }

  /**
    A destination path the deletion scan removes if it holds a file: it lies
    in a directory the walk visits, and no origin entry has its name there.
   */
  predicate Orphan(origin: Tree, p: Path) {
    p != [] && Parent(p) in origin.dirs && !Exists(origin, p)
  }

  /** The record a complete pass logs for destination path `p`, if any. */
  function RecordFor(origin: Tree, dest: Tree, digest: Bytes -> Digest, p: Path): Option<Action> {
    if p in origin.files then
      if p !in dest.files then Some(Copied)
      else if digest(origin.files[p]) != digest(dest.files[p]) then Some(Updated)
      else None
    else if p in dest.files && Orphan(origin, p) then Some(Deleted)
    else None
  }

  /** The file a complete pass leaves at destination path `p`, if any. */
  function TargetAt(origin: Tree, dest: Tree, digest: Bytes -> Digest, p: Path): Option<Bytes> {
    if p in origin.files && (p !in dest.files || digest(origin.files[p]) != digest(dest.files[p])) then
      Some(origin.files[p])
    else if p in dest.files && Orphan(origin, p) then
      None
    else
      FileAt(dest, p)
  }

  /** The destination tree after a pass that completes. */
  function Target(origin: Tree, dest: Tree, digest: Bytes -> Digest): (r: Tree)
    ensures r.dirs == dest.dirs + origin.dirs
    ensures forall p :: FileAt(r, p) == TargetAt(origin, dest, digest, p)
  {
    var files := map p | p in origin.files.Keys + dest.files.Keys && TargetAt(origin, dest, digest, p).Some?
                   :: TargetAt(origin, dest, digest, p).value;
    Tree(dest.dirs + origin.dirs, files)
  }

  /** The records a pass logs for the paths in `scope`. */
  function ExpectedOn(origin: Tree, dest: Tree, digest: Bytes -> Digest, scope: set<Path>): set<Record> {
    set p | p in scope && RecordFor(origin, dest, digest, p).Some? :: Record(RecordFor(origin, dest, digest, p).value, p)
  }

  /** Every record a pass that completes logs. */
  function Expected(origin: Tree, dest: Tree, digest: Bytes -> Digest): set<Record> {
    ExpectedOn(origin, dest, digest, origin.files.Keys + dest.files.Keys)
  }

  /**
    Visiting origin directory `d` raises an OSError: the destination has a
    file where `d` should be (copy2 or listdir fails), or a subdirectory of
    `d` that is not an origin directory: md5 cannot open it when the origin
    has a file of that name, and os.remove cannot delete it otherwise.
   */
  predicate BlockedAt(origin: Tree, dest: Tree, d: Path) {
    || d in dest.files
    || exists q :: q in dest.dirs && q != [] && Parent(q) == d && q !in origin.dirs
  }

  /** The pass stops with an error at some directory it visits. */
  predicate PassFails(origin: Tree, dest: Tree) {
    exists d :: d in origin.dirs && BlockedAt(origin, dest, d)
  }

  predicate NoDuplicates(s: seq<Record>) {
    forall i, j :: 0 <= i < j < |s| ==> s[i] != s[j]
  }

  function Elements(s: seq<Record>): set<Record> {
    set r | r in s
  }

  /**
    The state of a pass in progress: the destination holds the pass's target
    file at every path in `handled` and its starting file everywhere else,
    and the log has gained, exactly once each, the records of `handled`.
   */
  ghost predicate Progress(origin: Tree, dest: Tree, log: seq<Record>, dest0: Tree, log0: seq<Record>,
                           digest: Bytes -> Digest, handled: set<Path>)
  {
    && |log0| <= |log|
    && log[..|log0|] == log0
    && NoDuplicates(log[|log0|..])
    && Elements(log[|log0|..]) == ExpectedOn(origin, dest0, digest, handled)
    && forall p :: FileAt(dest, p) == if p in handled then TargetAt(origin, dest0, digest, p) else FileAt(dest0, p)
  }

  /** Nothing is done and nothing is logged at the start of a pass. */
  lemma ProgressStart(origin: Tree, dest: Tree, log: seq<Record>, digest: Bytes -> Digest)
    ensures Progress(origin, dest, log, dest, log, digest, {})
  {
    assert log[|log|..] == [];
    assert ExpectedOn(origin, dest, digest, {}) == {};
  }

  /**
    Handling one more path: the destination changes at `p` only, to the
    target file, and the log gains the record for `p` if there is one.
   */
  lemma {:induction false} ProgressStep(origin: Tree, dest: Tree, log: seq<Record>, dest0: Tree, log0: seq<Record>,
                                        digest: Bytes -> Digest, handled: set<Path>,
                                        p: Path, dest': Tree, log': seq<Record>)
    requires Progress(origin, dest, log, dest0, log0, digest, handled)
    requires p !in handled
    requires FileAt(dest', p) == TargetAt(origin, dest0, digest, p)
    requires forall q :: q != p ==> FileAt(dest', q) == FileAt(dest, q)
    requires log' == match RecordFor(origin, dest0, digest, p)
                     case Some(a) => log + [Record(a, p)]
                     case None => log
    ensures Progress(origin, dest', log', dest0, log0, digest, handled + {p})
  {
    var added := log[|log0|..];
    var e := ExpectedOn(origin, dest0, digest, handled);
    match RecordFor(origin, dest0, digest, p)
    case Some(a) =>
      var r := Record(a, p);
      assert log'[..|log0|] == log0;
      assert log'[|log0|..] == added + [r];
      assert r !in Elements(added);
      assert Elements(added + [r]) == Elements(added) + {r};
      assert ExpectedOn(origin, dest0, digest, handled + {p}) == e + {r};
    case None =>
      assert ExpectedOn(origin, dest0, digest, handled + {p}) == e;
  }

  /**
    A pass stopped part-way: only records a complete pass would log are in
    the log, and every destination file is either untouched or final.
   */
  lemma ProgressPartial(origin: Tree, dest: Tree, log: seq<Record>, dest0: Tree, log0: seq<Record>,
                        digest: Bytes -> Digest, handled: set<Path>)
    requires Progress(origin, dest, log, dest0, log0, digest, handled)
    ensures Elements(log[|log0|..]) <= Expected(origin, dest0, digest)
    ensures forall p :: FileAt(dest, p) == FileAt(dest0, p) || FileAt(dest, p) == TargetAt(origin, dest0, digest, p)
  {
  }

  /**
    A pass that has handled every path it logs something for has brought the
    destination files to Target and logged exactly the Expected records.
   */
  lemma ProgressComplete(origin: Tree, dest: Tree, log: seq<Record>, dest0: Tree, log0: seq<Record>,
                         digest: Bytes -> Digest, handled: set<Path>)
    requires Progress(origin, dest, log, dest0, log0, digest, handled)
    requires dest.dirs == dest0.dirs + origin.dirs
    requires forall p :: RecordFor(origin, dest0, digest, p).Some? ==> p in handled
    ensures dest == Target(origin, dest0, digest)
    ensures Elements(log[|log0|..]) == Expected(origin, dest0, digest)
  {
    var target := Target(origin, dest0, digest);
    forall p ensures FileAt(dest, p) == FileAt(target, p) {
      if p !in handled {
        assert RecordFor(origin, dest0, digest, p).None?;
      }
    }
    SameEntriesSameTree(dest, target);
  }

  /** A non-empty log extension holds at least its first record. */
  lemma FirstLogged(s: seq<Record>)
    ensures s != [] ==> s[0] in Elements(s)
  {
  }
}
