/**
  The checks the script runs on its command line before it starts syncing
  (syncFolders.py:97-123), as a pure function of the argument vector and of
  whether the origin folder exists. Paths are Windows paths: the checks split
  them on the backslash.
 */
module Startup {

  const SEP: char := '\\'

  /** How startup ends: syncing begins, or one of the refusals. */
  datatype Outcome =
    | Start(origin: string, destination: string, interval: string, logFile: string)
    | Usage             // wrong argument count: the usage message
    | OriginMissing     // "Origin folder does not exist"
    | SameFolder        // "Origin folder and destination folder cannot be the same"
    | LogInDestination  // "Log file cannot be in the same folder as the destination folder"
    | LogPathTooShort   // log path without a backslash: the [-2] index raises IndexError

  /** Python's str.split(sep): the pieces between separators, never an empty list. */
  function Split(s: string, sep: char): (parts: seq<string>)
    ensures |parts| >= 1
    ensures |parts| >= 2 <==> sep in s
  {
    if s == [] then [""]
    else
      var rest := Split(s[1..], sep);
      if s[0] == sep then [""] + rest
      else [[s[0]] + rest[0]] + rest[1..]
  }

  /** No piece holds the separator. */
  lemma {:induction false} SplitPieces(s: string, sep: char)
    ensures forall i :: 0 <= i < |Split(s, sep)| ==> sep !in Split(s, sep)[i]
  {
    if s != [] {
      SplitPieces(s[1..], sep);
      assert s == [s[0]] + s[1..];
    }
  }

  /** sep.join(parts), the inverse of Split. */
  function Join(parts: seq<string>, sep: char): string
    requires |parts| >= 1
  {
    if |parts| == 1 then parts[0] else parts[0] + [sep] + Join(parts[1..], sep)
  }

  /** Joining the pieces back gives the string that was split. */
  lemma {:induction false} JoinSplit(s: string, sep: char)
    ensures Join(Split(s, sep), sep) == s
  {
    if s != [] {
      var rest := Split(s[1..], sep);
      JoinSplit(s[1..], sep);
      if s[0] == sep {
        assert Split(s, sep)[1..] == rest;
      } else {
        var parts := Split(s, sep);
        if |rest| == 1 {
          assert parts == [[s[0]] + rest[0]];
        } else {
          assert parts[1..] == rest[1..];
          assert Join(rest, sep) == rest[0] + [sep] + Join(rest[1..], sep);
        }
        assert s == [s[0]] + s[1..];
      }
    }
  }

  /** Splitting a join of separator-free pieces gives the pieces back. */
  lemma {:induction false} SplitJoin(parts: seq<string>, sep: char)
    requires |parts| >= 1
    requires forall i :: 0 <= i < |parts| ==> sep !in parts[i]
    ensures Split(Join(parts, sep), sep) == parts
  {
    if |parts| == 1 {
      SplitPlain(parts[0], sep);
    } else {
      var rest := Join(parts[1..], sep);
      assert Join(parts, sep) == parts[0] + [sep] + rest;
      SplitJoin(parts[1..], sep);
      SplitConcat(parts[0], rest, sep);
      SplitPlain(parts[0], sep);
      assert [parts[0]] + parts[1..] == parts;
    }
  }

  /** A string without the separator splits into itself alone. */
  lemma {:induction false} SplitPlain(s: string, sep: char)
    requires sep !in s
    ensures Split(s, sep) == [s]
  {
    if s != [] {
      SplitPlain(s[1..], sep);
      assert s == [s[0]] + s[1..];
    }
  }

  /** Splitting at one separator: the pieces of the left part, then those of the right. */
  lemma {:induction false} SplitConcat(a: string, b: string, sep: char)
    ensures Split(a + [sep] + b, sep) == Split(a, sep) + Split(b, sep)
    decreases |a|
  {
    var x := a + [sep] + b;
    if a == [] {
      assert x[1..] == b;
    } else {
      assert x[1..] == a[1..] + [sep] + b;
      SplitConcat(a[1..], b, sep);
      SplitConcatStep(x, a, Split(b, sep), sep);
    }
  }

  /**
    SplitConcat's step: two strings with the same first character, whose
    tails split alike up to a common suffix of pieces, split alike up to it.
   */
  lemma SplitConcatStep(x: string, y: string, right: seq<string>, sep: char)
    requires x != [] && y != [] && x[0] == y[0]
    requires Split(x[1..], sep) == Split(y[1..], sep) + right
    ensures Split(x, sep) == Split(y, sep) + right
  {
    if x[0] == sep {
      SeparatorStep(Split(y[1..], sep), right);
    } else {
      CharacterStep([x[0]], Split(y[1..], sep), right);
    }
  }

  /** Regrouping the pieces after a leading separator. */
  lemma SeparatorStep(left: seq<string>, right: seq<string>)
    ensures [""] + (left + right) == ([""] + left) + right
  {
  }

  /** Regrouping the pieces after a leading ordinary character. */
  lemma CharacterStep(c: string, left: seq<string>, right: seq<string>)
    requires |left| >= 1
    ensures [c + left[0]] + (left + right)[1..] == ([c + left[0]] + left[1..]) + right
  {
    assert (left + right)[1..] == left[1..] + right;
  }

  /** The second-to-last piece of a path: the name of the folder that holds its last entry. */
  function FolderName(parts: seq<string>): string
    requires |parts| >= 2
  {
    parts[|parts| - 2]
  }

  function LastName(parts: seq<string>): string
    requires |parts| >= 1
  {
    parts[|parts| - 1]
  }

  /**
    The __main__ block as written: the argument count, the origin's
    existence, origin against destination, and the name of the log file's
    folder against the destination's last path component, in that order.
   */
  function CheckArguments(argv: seq<string>, originExists: bool): (r: Outcome)
    ensures r.Start? <==>
              && |argv| == 5 && originExists && argv[1] != argv[2]
              && SEP in argv[4]
              && FolderName(Split(argv[4], SEP)) != LastName(Split(argv[2], SEP))
    ensures r.Start? ==> r == Start(argv[1], argv[2], argv[3], argv[4])
    ensures r == Usage <==> |argv| != 5
    ensures r == OriginMissing <==> |argv| == 5 && !originExists
    ensures r == SameFolder <==> |argv| == 5 && originExists && argv[1] == argv[2]
    ensures r == LogPathTooShort <==> |argv| == 5 && originExists && argv[1] != argv[2] && SEP !in argv[4]
  {
    if |argv| != 5 then Usage
    else
      var origin, destination, logFile := argv[1], argv[2], argv[4];
      var logParts, destParts := Split(logFile, SEP), Split(destination, SEP);
      if !originExists then OriginMissing
      else if origin == destination then SameFolder
      else if |logParts| < 2 then LogPathTooShort
      else if FolderName(logParts) == LastName(destParts) then LogInDestination
      else Start(origin, destination, argv[3], logFile)
  }

  /** A log file placed directly in the destination folder is refused. */
  lemma LogInDestinationRefused(argv: seq<string>, name: string)
    requires |argv| == 5 && argv[1] != argv[2]
    requires SEP !in name && argv[4] == argv[2] + [SEP] + name
    ensures CheckArguments(argv, true) == LogInDestination
  {
    SplitConcat(argv[2], name, SEP);
    SplitPlain(name, SEP);
    assert SEP in argv[4] by {
      assert argv[4][|argv[2]|] == SEP;
    }
  }

  /**
    A log file in a different folder that merely has the destination's last
    name is refused all the same: with `D:\backup` as destination, a log at
    `C:\backup\sync.log` is refused although it is not in `D:\backup`.
   */
  lemma {:induction false} SameNamedFolderRefused(argv: seq<string>, root: string, otherRoot: string,
                                                  name: string, file: string)
    requires |argv| == 5 && argv[1] != argv[2]
    requires SEP !in root && SEP !in otherRoot && SEP !in name && SEP !in file && root != otherRoot
    requires argv[2] == otherRoot + [SEP] + name
    requires argv[4] == root + [SEP] + name + [SEP] + file
    ensures CheckArguments(argv, true) == LogInDestination
    ensures FolderOf(argv[4]) != argv[2]
  {
    SameNamedFolderPieces(argv, root, otherRoot, name, file);
  }

  /** The pieces of the two paths of a same-named-folder configuration. */
  lemma SameNamedFolderPieces(argv: seq<string>, root: string, otherRoot: string,
                              name: string, file: string)
    requires |argv| == 5
    requires SEP !in root && SEP !in otherRoot && SEP !in name && SEP !in file && root != otherRoot
    requires argv[2] == otherRoot + [SEP] + name
    requires argv[4] == root + [SEP] + name + [SEP] + file
    ensures Split(argv[2], SEP) == [otherRoot, name]
    ensures Split(argv[4], SEP) == [root, name, file]
    ensures SEP in argv[4] && FolderOf(argv[4]) == root + [SEP] + name
    ensures FolderOf(argv[4]) != argv[2]
  {
    TwoPieces(otherRoot, name);
    ThreePieces(root, name, file);
    DifferentRootsDifferentFolders(root, otherRoot, name);
  }

  /** A path of two separator-free names splits into those names. */
  lemma TwoPieces(x: string, y: string)
    requires SEP !in x && SEP !in y
    ensures Split(x + [SEP] + y, SEP) == [x, y]
  {
    SplitConcat(x, y, SEP);
    SplitPlain(x, SEP);
    SplitPlain(y, SEP);
  }

  /** A path of three separator-free names splits into them, and its folder is the first two. */
  lemma ThreePieces(x: string, y: string, z: string)
    requires SEP !in x && SEP !in y && SEP !in z
    ensures Split(x + [SEP] + y + [SEP] + z, SEP) == [x, y, z]
    ensures SEP in x + [SEP] + y + [SEP] + z
    ensures FolderOf(x + [SEP] + y + [SEP] + z) == x + [SEP] + y
  {
    var p := x + [SEP] + y + [SEP] + z;
    assert p == x + [SEP] + (y + [SEP] + z);
    SplitConcat(x, y + [SEP] + z, SEP);
    TwoPieces(y, z);
    SplitPlain(x, SEP);
    FolderOfThree(p, x, y, z);
  }

  /** The folder of a path that splits into three pieces is its first two, joined. */
  lemma FolderOfThree(p: string, x: string, y: string, z: string)
    requires Split(p, SEP) == [x, y, z]
    ensures SEP in p && FolderOf(p) == x + [SEP] + y
  {
    var parts := Split(p, SEP);
    assert parts[..|parts| - 1] == [x, y];
    assert Join([y], SEP) == y;
  }

  /** Folders of the same name under different roots are different folders. */
  lemma DifferentRootsDifferentFolders(root: string, otherRoot: string, name: string)
    requires root != otherRoot
    ensures root + [SEP] + name != otherRoot + [SEP] + name
  {
    if |root| == |otherRoot| {
      assert (root + [SEP] + name)[..|root|] == root;
      assert (otherRoot + [SEP] + name)[..|root|] == otherRoot;
    }
  }

  /** The folder a path's last entry sits in: every piece but the last, joined again. */
  function FolderOf(path: string): (folder: string)
    requires SEP in path
    ensures folder + [SEP] + LastName(Split(path, SEP)) == path
  {
    var parts := Split(path, SEP);
    JoinSplit(path, SEP);
    JoinPrefix(parts, SEP);
    Join(parts[..|parts| - 1], SEP)
  }

  /** Joining all pieces equals joining all but the last, then the separator and the last piece. */
  lemma {:induction false} JoinPrefix(parts: seq<string>, sep: char)
    requires |parts| >= 2
    ensures Join(parts, sep) == Join(parts[..|parts| - 1], sep) + [sep] + parts[|parts| - 1]
  {
    if |parts| > 2 {
      JoinPrefix(parts[1..], sep);
      assert parts[1..][..|parts| - 2] == parts[..|parts| - 1][1..];
    }
  }

  /**
    A path with its trailing separators dropped: `D:\backup\` names the same
    folder as `D:\backup`.
   */
  function TrimSeparators(s: string): (t: string)
    ensures t <= s
    ensures t == [] || t[|t| - 1] != SEP
    ensures forall i :: |t| <= i < |s| ==> s[i] == SEP
  {
    if s != [] && s[|s| - 1] == SEP then TrimSeparators(s[..|s| - 1]) else s
  }

  /** A trailing separator does not change the folder a path names. */
  lemma TrimAppended(s: string)
    ensures TrimSeparators(s + [SEP]) == TrimSeparators(s)
  {
    assert (s + [SEP])[..|s|] == s;
  }

  /** A path not ending in a separator is its own trimmed form. */
  lemma TrimUnchanged(s: string)
    requires s == [] || s[|s| - 1] != SEP
    ensures TrimSeparators(s) == s
  {
  }

  /**
    The check as the message states it: the log file is refused when the
    folder it sits in is the destination folder itself, trailing separators
    aside.
   */
  function CheckArgumentsByFolder(argv: seq<string>, originExists: bool): (r: Outcome)
    ensures r == Usage <==> |argv| != 5
    ensures r == OriginMissing <==> |argv| == 5 && !originExists
    ensures r == SameFolder <==> |argv| == 5 && originExists && argv[1] == argv[2]
    ensures r == LogPathTooShort <==> |argv| == 5 && originExists && argv[1] != argv[2] && SEP !in argv[4]
    ensures r == LogInDestination <==>
              && |argv| == 5 && originExists && argv[1] != argv[2] && SEP in argv[4]
              && TrimSeparators(FolderOf(argv[4])) == TrimSeparators(argv[2])
    ensures r.Start? ==> r == Start(argv[1], argv[2], argv[3], argv[4])
  {
    if |argv| != 5 then Usage
    else if !originExists then OriginMissing
    else if argv[1] == argv[2] then SameFolder
    else if SEP !in argv[4] then LogPathTooShort
    else if TrimSeparators(FolderOf(argv[4])) == TrimSeparators(argv[2]) then LogInDestination
    else Start(argv[1], argv[2], argv[3], argv[4])
  }

  /** The folder of destination + separator + name is the destination. */
  lemma {:induction false} FolderOfEntry(dir: string, name: string)
    requires SEP !in name
    ensures SEP in dir + [SEP] + name
    ensures FolderOf(dir + [SEP] + name) == dir
  {
    var p := dir + [SEP] + name;
    SplitConcat(dir, name, SEP);
    SplitPlain(name, SEP);
    assert p[|dir|] == SEP;
    var folder := FolderOf(p);
    assert LastName(Split(p, SEP)) == name;
    assert folder + [SEP] + name == dir + [SEP] + name;
    assert folder == (folder + [SEP] + name)[..|folder|];
    assert dir == (dir + [SEP] + name)[..|dir|];
  }

  /** The folder-based check refuses a log file directly in the destination ... */
  lemma ByFolderRefusesLogInDestination(argv: seq<string>, name: string)
    requires |argv| == 5 && argv[1] != argv[2]
    requires SEP !in name && argv[4] == argv[2] + [SEP] + name
    ensures CheckArgumentsByFolder(argv, true) == LogInDestination
  {
    FolderOfEntry(argv[2], name);
  }

  /** ... also when the destination is given with a trailing separator ... */
  lemma ByFolderRefusesLogInSlashedDestination(argv: seq<string>, dir: string, name: string)
    requires |argv| == 5 && argv[1] != argv[2]
    requires argv[2] == dir + [SEP]
    requires SEP !in name && argv[4] == argv[2] + name
    ensures CheckArgumentsByFolder(argv, true) == LogInDestination
  {
    assert argv[4] == dir + [SEP] + name;
    FolderOfEntry(dir, name);
    TrimAppended(dir);
  }

  /**
    The check as written lets a log file directly in the destination through
    when the destination ends in a separator: its last piece is then empty.
   */
  lemma {:induction false} SlashedDestinationAccepted(argv: seq<string>, root: string, name: string, file: string)
    requires |argv| == 5 && argv[1] != argv[2]
    requires SEP !in root && SEP !in name && SEP !in file && name != []
    requires argv[2] == root + [SEP] + name + [SEP]
    requires argv[4] == argv[2] + file
    ensures CheckArguments(argv, true).Start?
    ensures CheckArgumentsByFolder(argv, true) == LogInDestination
  {
    assert argv[4] == root + [SEP] + name + [SEP] + file;
    ThreePieces(root, name, file);
    assert argv[2] == root + [SEP] + name + [SEP] + "";
    ThreePieces(root, name, "");
    ByFolderRefusesLogInSlashedDestination(argv, root + [SEP] + name, file);
  }

  /** The trailing-separator discrepancy on one command line. */
  lemma SlashedDestinationExample()
    ensures CheckArguments(["syncFolders.py", "C:\\data", "D:\\backup\\", "60", "D:\\backup\\sync.log"], true).Start?
    ensures CheckArgumentsByFolder(["syncFolders.py", "C:\\data", "D:\\backup\\", "60", "D:\\backup\\sync.log"], true)
            == LogInDestination
  {
    var argv := ["syncFolders.py", "C:\\data", "D:\\backup\\", "60", "D:\\backup\\sync.log"];
    assert argv[2] == "D:" + [SEP] + "backup" + [SEP];
    assert argv[4] == argv[2] + "sync.log";
    SlashedDestinationAccepted(argv, "D:", "backup", "sync.log");
  }

  /** ... and accepts one in another folder of the same name. */
  lemma ByFolderAcceptsSameNamedFolder(argv: seq<string>, root: string, otherRoot: string,
                                       name: string, file: string)
    requires |argv| == 5 && argv[1] != argv[2]
    requires SEP !in root && SEP !in otherRoot && SEP !in name && SEP !in file && root != otherRoot
    requires argv[2] == otherRoot + [SEP] + name
    requires argv[4] == root + [SEP] + name + [SEP] + file
    ensures CheckArgumentsByFolder(argv, true).Start?
  {
    SameNamedFolderPieces(argv, root, otherRoot, name, file);
    if name == [] {
      TrimAppended(root);
      TrimAppended(otherRoot);
      assert root + [SEP] + name == root + [SEP];
      assert otherRoot + [SEP] + name == otherRoot + [SEP];
    } else {
      TrimUnchanged(root + [SEP] + name);
      TrimUnchanged(otherRoot + [SEP] + name);
    }
  }

  /** The same-named-folder discrepancy on one command line. */
  lemma SameNamedFolderExample()
    ensures CheckArguments(["syncFolders.py", "C:\\data", "D:\\backup", "60", "C:\\backup\\sync.log"], true)
            == LogInDestination
    ensures CheckArgumentsByFolder(["syncFolders.py", "C:\\data", "D:\\backup", "60", "C:\\backup\\sync.log"], true).Start?
  {
    var argv := ["syncFolders.py", "C:\\data", "D:\\backup", "60", "C:\\backup\\sync.log"];
    assert argv[2] == "D:" + [SEP] + "backup";
    assert argv[4] == "C:" + [SEP] + "backup" + [SEP] + "sync.log";
    SameNamedFolderRefused(argv, "C:", "D:", "backup", "sync.log");
    ByFolderAcceptsSameNamedFolder(argv, "C:", "D:", "backup", "sync.log");
  }
}
