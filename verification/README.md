# Syncee: a verified model of the folder reconciliation pass

Syncee keeps a destination folder in step with an origin folder, one way only.
It does this in periodic passes. Each pass walks the origin tree top-down. For
every origin directory it makes sure the mirrored destination directory exists.
It then copies files the destination lacks and overwrites files whose MD5
digest differs. Last, it deletes destination entries whose name the origin
directory does not have. Every action appends a Copied, Updated or Deleted
record to the change log. Before the first pass, the script checks its command
line: the argument count, that the origin exists, that origin and destination
differ, and that the name of the log file's folder differs from the destination's last
path component.

The model has six modules:

- `FileTree` (file_tree.dfy): the abstract filesystem. A `Tree` is a set of
  directory paths plus a map from file paths to bytes. A path is a sequence of
  names relative to the tree's root. `Exists` is `os.path.exists`: a file or a
  directory is at the path.
- `Reconcile` (reconcile.dfy): what a pass does, path by path and in any visiting
  order. `RecordFor` gives the record logged for a path, `TargetAt` and `Target`
  the resulting files, and `BlockedAt` / `PassFails` the inputs on which the
  pass raises an OSError. It also holds `Progress`, the invariant of a pass in
  progress.
- `SyncFolders` (sync_folders.dfy): the pass itself, imperative. Class `FileSystem`
  has the origin tree, the destination tree and the log as fields. Its methods
  model `os.makedirs`, `shutil.copy2`, `os.remove` and `log_change`, and the
  nested loops of `sync_folders`.
- `PassProperties` (pass_properties.dfy): what a completed pass guarantees:
  mirroring, completeness, change detection, deletion and idempotence.
- `Scenarios` (scenarios.dfy): worked examples, one per kind of change, plus exact name matching and the depth-first walk step.
- `Startup` (startup.dfy): the command-line checks, as a pure function over
  Python's `str.split`.

The MD5 digest is a function-valued parameter `digest: Bytes -> Digest`, so
nothing is assumed about it beyond being a function of the bytes. Change
detection is "digests differ". Exact copies follow once the digest is assumed
injective (`CompletedPassCopiesExactly`).

The walk order is left open. The method picks any unvisited directory whose
parent has been visited (`ParentVisited`). That covers `os.walk`'s top-down,
depth-first order whatever order each directory lists its subdirectories in.
Files and directory listings are likewise taken in any order. As a result the
log is specified as a set of records with no record twice, and every result
holds for every such order.

Three behaviours of the code shape the model:

- `os.remove` cannot remove a directory, so an orphan destination
  subdirectory makes the pass fail (`BlockedAt`).
- The first OSError ends the pass. `SyncFolders` returns `ok == false` at that
  point, and the changes already made stay.
- Line 112 compares only the name of the log file's folder with the last
  component of the destination path (see Findings).

## Model

| member | source | states |
|---|---|---|
| `Reconcile.Md5ByContent` | syncFolders.py:15-20 | md5 depends only on the bytes read: two files with equal contents have equal digests wherever they are stored |
| `Reconcile.Md5OfDirectory` | syncFolders.py:15-20 | opening a directory fails, so a directory has no digest |
| `SyncFolders.FileSystem.LogChange` | syncFolders.py:66-75 | a change appends exactly one (action, path) record to the log and changes nothing else |
| `SyncFolders.FileSystem.MakeDirs` | syncFolders.py:37-38 | os.makedirs adds the directory and every directory above it, and keeps the tree well formed |
| `SyncFolders.FileSystem.Copy2` | syncFolders.py:46-55 | the destination file at the path gets the origin file's bytes; nothing else changes |
| `SyncFolders.FileSystem.Remove` | syncFolders.py:61-62 | os.remove succeeds exactly when a file is at the path, and then only that file is gone |
| `SyncFolders.FileSystem.DeleteEntry` | syncFolders.py:59-64 | an entry the origin lacks: when it is a file, exactly that file goes and exactly one Deleted record is logged; when it is a directory, os.remove fails and nothing changes |
| `SyncFolders.FileSystem.EnsureDir` | syncFolders.py:36-38 | the mirrored destination directory exists afterwards; in a top-down walk it is the only directory created |
| `SyncFolders.FileSystem.SyncFile` | syncFolders.py:42-55 | one origin file: copied when the destination has nothing at its path, overwritten when the digests differ, left alone when they agree; fails exactly when the destination has a directory there, and then changes nothing |
| `SyncFolders.FileSystem.SyncFiles` | syncFolders.py:41-55 | every origin file of the directory is copied (Copied) when missing, overwritten (Updated) when its digest differs, left alone otherwise; it fails exactly when the destination has a directory under one of these names |
| `SyncFolders.FileSystem.RemoveOrphans` | syncFolders.py:57-64 | every destination file whose name the origin directory lacks is removed and logged Deleted; it fails exactly when such an entry is a directory |
| `SyncFolders.FileSystem.VisitDir` | syncFolders.py:32-64 | one iteration of the walk handles every path in the directory that a complete pass changes, and fails exactly when the directory is blocked in the destination |
| `SyncFolders.FileSystem.SyncFolders` | syncFolders.py:22-64 | the pass fails exactly when `PassFails` holds of the starting trees; otherwise the destination becomes `Target` and the log gains exactly the `Expected` records, once each; after a failure every file is unchanged or final and only expected records were logged; the origin is never written |
| `SyncFolders.SyncTwice` | syncFolders.py:86-88 | two driver iterations: when the first pass completes, the second does too, appends nothing to the log after the first pass and leaves the destination as the first pass left it; an origin that is not a directory changes nothing |
| `PassProperties.DestDirInOrigin` | syncFolders.py:58-62 | if the pass completes, every destination directory is an origin directory |
| `PassProperties.CompletedPassMirrors` | syncFolders.py:32-55 | after a completed pass the destination has exactly the origin's directories (root and empty ones included) and file paths, each file with its origin counterpart's digest |
| `PassProperties.CompletedPassCopiesExactly` | syncFolders.py:46-55 | with an injective digest, the destination after a completed pass equals the origin tree |
| `PassProperties.SecondPassChangesNothing` | syncFolders.py:32-64 | a second pass over an unchanged origin completes, logs no record and leaves the destination as the first pass left it |
| `PassProperties.OriginFileOutcome` | syncFolders.py:41-55 | an origin file missing from the destination gets one Copied record and the origin bytes; one present gets an Updated record if and only if the digests differ; equal digests leave the file and the log alone |
| `PassProperties.DestFileOutcome` | syncFolders.py:58-64 | a destination file is deleted, with a Deleted record, if and only if its directory is visited and the origin has no entry of its name there; a file whose name the origin has survives |
| `PassProperties.OneRecordPerPath` | syncFolders.py:41-64 | a pass logs at most one record per destination path |
| `PassProperties.RootlessOriginChangesNothing` | syncFolders.py:32 | when the origin is not a directory, os.walk yields nothing: the pass completes, logs nothing and leaves the destination alone |
| `FileTree.ReadyExists` | syncFolders.py:32 | while directories are pending, one of them has its parent visited, so a top-down walk can always go on |
| `PassProperties.UnvisitedUntouched` | syncFolders.py:32-34 | paths outside the origin's directories keep their file and get no record |
| `Scenarios.NewFileIsCopied` | syncFolders.py:52-55 | a/b.txt only in the origin: copied with its content, one Copied record |
| `Scenarios.IdenticalFileIsLeftAlone` | syncFolders.py:46-48 | identical a/b.txt on both sides: nothing changes, no record |
| `Scenarios.ChangedFileIsUpdated` | syncFolders.py:46-51 | a/b.txt with a different digest: overwritten, one Updated record |
| `Scenarios.OrphanFileIsDeleted` | syncFolders.py:58-64 | a/c.txt only in the destination: removed, one Deleted record |
| `Scenarios.NamesMatchExactly` | syncFolders.py:46-64 | a/B.txt in the origin and a/b.txt with the same bytes in the destination are different names: one Copied and one Deleted record |
| `Scenarios.DepthFirstStepAllowed` | syncFolders.py:32 | after the root and a, the walk may visit a/x while the shallower b is pending, so the choice is not shortest-first, as os.walk's depth-first order requires |
| `Startup.Split` | syncFolders.py:103-104 | str.split never returns an empty list, and there are two or more pieces exactly when the string holds the separator |
| `Startup.SplitPieces` | syncFolders.py:103-104 | no piece of str.split holds the separator |
| `Startup.JoinSplit` | syncFolders.py:103-104 | joining the pieces with the separator gives back the string that was split |
| `Startup.SplitJoin` | syncFolders.py:103-104 | splitting a join of separator-free pieces gives back the pieces |
| `Startup.SplitConcat` | syncFolders.py:103-104 | splitting at a separator gives the pieces of the left part followed by those of the right part |
| `Startup.CheckArguments` | syncFolders.py:97-123 | syncing starts exactly when there are 5 arguments, the origin exists, origin differs from destination, the log path has a backslash and its folder name differs from the destination's last component; each refusal is the first check that fails, and a log path without a backslash is a failure (IndexError) |
| `Startup.LogInDestinationRefused` | syncFolders.py:112-114 | a log file placed directly in the destination folder is refused |
| `Startup.SameNamedFolderRefused` | syncFolders.py:112-114 | a log file in another folder that only shares the destination's last name is refused, although its folder is not the destination |
| `Startup.SameNamedFolderExample` | syncFolders.py:112-114 | the command line with destination `D:\backup` and log `C:\backup\sync.log` is refused as written and accepted by the folder check |
| `Startup.FolderOf` | syncFolders.py:112 | the folder of a path, followed by the separator and the last piece, is the path |
| `Startup.TrimSeparators` | syncFolders.py:112 | the trimmed path is the longest prefix that does not end in a backslash, and only backslashes were dropped |
| `Startup.CheckArgumentsByFolder` | syncFolders.py:97-123 | the check as its message states it: the log file is refused exactly when the path of the folder it sits in equals the destination path, trailing backslashes dropped from both; the other checks are unchanged |
| `Startup.ByFolderRefusesLogInDestination` | syncFolders.py:112-114 | the folder check refuses a log file placed directly in the destination folder |
| `Startup.ByFolderRefusesLogInSlashedDestination` | syncFolders.py:112-114 | the folder check also refuses a log file placed directly in a destination given with a trailing backslash |
| `Startup.SlashedDestinationAccepted` | syncFolders.py:112-114 | as written, a destination given with a trailing backslash lets a log file directly in it through, while the folder check refuses it |
| `Startup.SlashedDestinationExample` | syncFolders.py:112-114 | the command line with destination `D:\backup\` and log `D:\backup\sync.log` is accepted as written and refused by the folder check |
| `Startup.ByFolderAcceptsSameNamedFolder` | syncFolders.py:112-114 | the folder check accepts a log file in another folder of the same name |

## Findings

| source | as written | input that shows it | evidently intended | confidence | as-written member | corrected member |
|---|---|---|---|---|---|---|
| syncFolders.py:112 | compares the name of the log file's folder (`split('\\')[-2]`) with the last component of the destination path | origin `C:\data` (existing), destination `D:\backup`, log `C:\backup\sync.log`: refused with "Log file cannot be in the same folder as the destination folder" | refuse only when the folder holding the log file is the destination folder | medium; not executed | `Startup.SameNamedFolderExample` | `Startup.CheckArgumentsByFolder` |
| syncFolders.py:112 | takes the destination's last component with `split('\\')[-1]`, which is empty when the destination ends in a backslash | origin `C:\data` (existing), destination `D:\backup\`, log `D:\backup\sync.log`: accepted, so every pass deletes the log as an orphan and `log_change` recreates it | refuse a log file whose folder is the destination, however the destination is spelled | medium; not executed | `Startup.SlashedDestinationExample` | `Startup.CheckArgumentsByFolder` |

## Left out

- The body of `md5`: hashlib and its 4096-byte chunked reads are a foreign library. It is modelled only as a function of the bytes (`digest`).
- `log_change` file appends, `datetime.now()` timestamps and `print`: these are I/O. The log keeps only (action, path) records, with the path relative to the destination root rather than the joined path string.
- `main`: the `time.sleep` interval, `msvcrt` keypress polling, `exit()` and the up-front creation of the destination root. These are scheduling, platform input and process control. `SyncTwice` stands for two loop iterations. A missing destination root is created by the pass's own `os.makedirs`.
- `int(sys.argv[3])`: the interval is kept as a string. A non-numeric interval (a ValueError before any other check) is not modelled.
- Whether the origin exists is an input of `CheckArguments` (a filesystem query).
- `shutil.copy2` metadata: modification times play no part in change detection.
- The exact behaviour of `os.walk`, `os.path.relpath` and `os.path.join`. Paths are sequences of names. The walk is any order over the origin's directories that visits each after its parent. `os.walk` silently skipping unreadable directories, and symbolic links, are not modelled.
- Letter case in names: entries are matched by exact name, as on a case-sensitive filesystem. On Windows, which the `msvcrt` import ties the script to, `os.path.exists` ignores case. With origin `a\B.txt` and destination `a\b.txt` holding the same bytes, the script changes nothing, but the model copies `B.txt` and deletes `b.txt` (`NamesMatchExactly`).
- A destination path that names an existing regular file is not modelled: the destination is always a tree of directories and files below a root directory. The script accepts such a path at startup, and line 81 does not create the folder because the path exists. Its first pass then raises at the root, either in `shutil.copy2` or in `os.listdir`, before it changes anything, and the script ends.
- Origin and destination are two separate trees. A destination nested inside the origin, or the reverse, is not modelled. The command line only checks that the two strings differ.
- The log file is assumed to lie outside both trees, since the log is kept as a sequence apart from them. The startup checks do not ensure this. A log inside the origin (origin `C:\data`, log `C:\data\sync.log`) is copied or updated and then appended to, so every later pass logs an Updated record. A log inside the destination is deleted as an orphan on every pass and recreated by `log_change`. In both configurations the idempotence stated by `SyncTwice` and `SecondPassChangesNothing` does not hold for the script.
- `Startup.CheckArgumentsByFolder`: compares path strings after dropping trailing backslashes. It does not normalise letter case, `.` and `..` components, forward slashes, repeated inner backslashes or relative against absolute paths. So `d:\Backup` with log `D:\backup\sync.log` is still accepted.
- Concurrent changes to either tree during a pass, and I/O errors other than the three structural ones in `BlockedAt` (permissions, full disk, a file vanishing mid-pass).
- `SyncFolders.FileSystem.Copy2`: requires a destination directory and no directory at the path, because the pass only calls it after checking both. The failure of `shutil.copy2` itself is not modelled.
