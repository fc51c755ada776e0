/**
 * The per-file fan-in and fan-out of `merge_and_sync_file`
 * (sl-chatmerge.py:364-480) over an abstract file system. Directory `i` is
 * the i-th existing configured directory; a file is addressed by that index
 * and its relative path.
 */
module Sync {
  import opened Wrappers
  import opened Text
  import opened Config
  import opened Selection
  import opened Timestamp
  import opened ChatLog
  import opened ChatLogFacts

  /** A file's address: the index of its directory and its path relative to that directory. */
  type Key = (nat, String)

  /** The bytes one character takes in UTF-8. */
  function CharSize(c: char): nat {
    if c as int < 0x80 then 1 else if c as int < 0x800 then 2 else if c as int < 0x1_0000 then 3 else 4
  }

  /** The size on disk of a text stored as UTF-8, what `stat().st_size` reports. */
  function Utf8Size(s: String): nat
    decreases |s|
  {
    if s == [] then 0 else CharSize(s[0]) + Utf8Size(s[1..])
  }

  /** The directory holding a relative path: everything before its last '/', "" for the root. */
  function Parent(rel: String): String {
    var parts := Split(rel, '/');
    Join(parts[..|parts| - 1], '/')
  }

  /** Directory i has the directory p: the root always exists, any other must be recorded. */
  predicate ParentExists(dirs: set<Key>, i: nat, p: String) {
    p == [] || (i, p) in dirs
  }

  /** Every file sits in an existing directory. */
  ghost predicate Consistent(files: map<Key, String>, dirs: set<Key>) {
    forall k | k in files :: ParentExists(dirs, k.0, Parent(k.1))
  }

  /** The file system: file contents by address, and the sub-directories that exist. */
  class FileSystem {
    var files: map<Key, String>
    var dirs: set<Key>

    constructor (files0: map<Key, String>, dirs0: set<Key>)
      ensures files == files0 && dirs == dirs0
    {
      files := files0;
      dirs := dirs0;
    }

    ghost predicate Valid()
      reads this
    {
      Consistent(files, dirs)
    }
  }

  /** What step 4 does with one writable directory. */
  datatype Action = Add | Update | Unchanged

  /** The report for one writable directory: whether its parent directory is missing, and the action. */
  datatype Step = Step(dir: nat, createParent: bool, action: Action)

  /** How a call ends. */
  datatype Outcome =
    | ExcludedDirectory
    | SameSize
    | NotReadable
    | Aborted(error: Malformed)
    | Synced(merged: String, steps: seq<Step>)

  /** The sizes of the copies in directories 0 .. n-1. */
  function Sizes(files: map<Key, String>, rel: String, n: nat): set<nat>
    decreases n
  {
    if n == 0 then {}
    else Sizes(files, rel, n - 1) + (if (n - 1, rel) in files then {Utf8Size(files[(n - 1, rel)])} else {})
  }

  predicate AllHave(files: map<Key, String>, rel: String, n: nat) {
    forall i: nat :: i < n ==> (i, rel) in files
  }

  predicate SomeHas(files: map<Key, String>, rel: String, n: nat) {
    exists i: nat :: i < n && (i, rel) in files
  }

  /** Step 0: every directory, of any mode, has the file, and all copies have one size. */
  predicate SizeSkip(files: map<Key, String>, modes: seq<Mode>, rel: String) {
    AllHave(files, rel, |modes|) && |Sizes(files, rel, |modes|)| == 1 && SomeHas(files, rel, |modes|)
  }

  /** Step 1: the copies in the readable directories 0 .. n-1, in configuration order. */
  function Contents(files: map<Key, String>, modes: seq<Mode>, rel: String, n: nat): seq<String>
    requires n <= |modes|
    decreases n
  {
    if n == 0 then []
    else Contents(files, modes, rel, n - 1) + (if Readable(modes[n - 1]) && (n - 1, rel) in files then [files[(n - 1, rel)]] else [])
  }

  /** The action for directory i: Add when it lacks the file, Update when its copy differs. */
  function ActionFor(files: map<Key, String>, i: nat, rel: String, merged: String): Action {
    if (i, rel) !in files then Add else if files[(i, rel)] != merged then Update else Unchanged
  }

  /** Step 4's reports for the writable directories among 0 .. n-1. */
  function Steps(files: map<Key, String>, dirs: set<Key>, modes: seq<Mode>, rel: String, merged: String, n: nat): seq<Step>
    requires n <= |modes|
    decreases n
  {
    if n == 0 then []
    else
      Steps(files, dirs, modes, rel, merged, n - 1) +
      (if Writable(modes[n - 1])
       then [Step(n - 1, !ParentExists(dirs, n - 1, Parent(rel)), ActionFor(files, n - 1, rel, merged))]
       else [])
  }

  /** The files after a live step 4 over directories 0 .. n-1: each writable copy holds the merged text. */
  function Written(files: map<Key, String>, modes: seq<Mode>, rel: String, merged: String, n: nat): map<Key, String>
    requires n <= |modes|
    decreases n
  {
    if n == 0 then files
    else
      var before := Written(files, modes, rel, merged, n - 1);
      if Writable(modes[n - 1]) then before[(n - 1, rel) := merged] else before
  }

  /** The directories after a live step 4 over directories 0 .. n-1: each writable one has the parent. */
  function Created(dirs: set<Key>, modes: seq<Mode>, rel: String, n: nat): set<Key>
    requires n <= |modes|
    decreases n
  {
    if n == 0 then dirs
    else
      var before := Created(dirs, modes, rel, n - 1);
      if Writable(modes[n - 1]) && Parent(rel) != [] then before + {(n - 1, Parent(rel))} else before
  }

  /** merge_and_sync_file as a function of the state before the call (dry run or not). */
  function Decide(files: map<Key, String>, dirs: set<Key>, modes: seq<Mode>, rel: String, force: bool): Outcome {
    if InExcludedDirectory(rel) then ExcludedDirectory
    else if !force && SizeSkip(files, modes, rel) then SameSize
    else
      var contents := Contents(files, modes, rel, |modes|);
      if contents == [] then NotReadable
      else
        match SortedLog(Concat(contents))
        case Err(e) => Aborted(e)
        case Ok(merged) => Synced(merged, Steps(files, dirs, modes, rel, merged, |modes|))
  }

  /** The files after the call: only a live run that synced changes them. */
  function AfterFiles(files: map<Key, String>, dirs: set<Key>, modes: seq<Mode>, rel: String, force: bool, dryRun: bool): map<Key, String> {
    var outcome := Decide(files, dirs, modes, rel, force);
    if outcome.Synced? && !dryRun then Written(files, modes, rel, outcome.merged, |modes|) else files
  }

  /** The directories after the call. */
  function AfterDirs(files: map<Key, String>, dirs: set<Key>, modes: seq<Mode>, rel: String, force: bool, dryRun: bool): set<Key> {
    var outcome := Decide(files, dirs, modes, rel, force);
    if outcome.Synced? && !dryRun then Created(dirs, modes, rel, |modes|) else dirs
  }

  /** Which addresses a live step 4 over directories 0 .. n-1 writes, and what they then hold. */
  lemma {:induction false} WrittenAt(files: map<Key, String>, modes: seq<Mode>, rel: String, merged: String, n: nat, k: Key)
    requires n <= |modes|
    ensures k in Written(files, modes, rel, merged, n) <==>
      k in files || (k.1 == rel && k.0 < n && Writable(modes[k.0]))
    ensures k in Written(files, modes, rel, merged, n) ==>
      Written(files, modes, rel, merged, n)[k] == if k.1 == rel && k.0 < n && Writable(modes[k.0]) then merged else files[k]
    decreases n
  {
    if n > 0 {
      WrittenAt(files, modes, rel, merged, n - 1, k);
    }
  }

  /** Which directories a live step 4 over directories 0 .. n-1 has created. */
  lemma {:induction false} CreatedAt(dirs: set<Key>, modes: seq<Mode>, rel: String, n: nat, k: Key)
    requires n <= |modes|
    ensures k in Created(dirs, modes, rel, n) <==>
      k in dirs || (k.1 == Parent(rel) && Parent(rel) != [] && k.0 < n && Writable(modes[k.0]))
    decreases n
  {
    if n > 0 {
      CreatedAt(dirs, modes, rel, n - 1, k);
    }
  }

  /** The copies read in step 1 are the readable directories' copies: none exactly when no readable directory has the file. */
  lemma {:induction false} ContentsEmpty(files: map<Key, String>, modes: seq<Mode>, rel: String, n: nat)
    requires n <= |modes|
    ensures Contents(files, modes, rel, n) == [] <==> forall i :: 0 <= i < n && Readable(modes[i]) ==> (i, rel) !in files
    decreases n
  {
    if n > 0 {
      ContentsEmpty(files, modes, rel, n - 1);
    }
  }

  /** The sizes collected in step 0 are the sizes of the copies that exist. */
  lemma {:induction false} SizesAre(files: map<Key, String>, rel: String, n: nat, x: nat)
    ensures x in Sizes(files, rel, n) <==> exists i: nat :: i < n && (i, rel) in files && Utf8Size(files[(i, rel)]) == x
    decreases n
  {
    if n > 0 {
      SizesAre(files, rel, n - 1, x);
      if exists i: nat :: i < n && (i, rel) in files && Utf8Size(files[(i, rel)]) == x {
        var i: nat :| i < n && (i, rel) in files && Utf8Size(files[(i, rel)]) == x;
        if i < n - 1 {
          assert exists j: nat :: j < n - 1 && (j, rel) in files && Utf8Size(files[(j, rel)]) == x;
        }
      }
    }
  }

  /**
   * The size short-circuit of step 0 applies exactly when at least one
   * directory is configured, every directory has the file and all copies
   * have the same size.
   */
  lemma SizeSkipIff(files: map<Key, String>, modes: seq<Mode>, rel: String)
    ensures SizeSkip(files, modes, rel) <==>
      |modes| > 0 && AllHave(files, rel, |modes|) &&
      forall i: nat, j: nat :: i < |modes| && j < |modes| ==> Utf8Size(files[(i, rel)]) == Utf8Size(files[(j, rel)])
  {
    var n := |modes|;
    var s := Sizes(files, rel, n);
    if SizeSkip(files, modes, rel) {
      var x :| x in s;
      assert s == {x} by {
        assert s * {x} == {x};
        assert |s - {x}| == 0;
        forall y | y in s ensures y == x {
          assert y !in s - {x};
        }
      }
      forall i: nat, j: nat | i < n && j < n ensures Utf8Size(files[(i, rel)]) == Utf8Size(files[(j, rel)]) {
        SizesAre(files, rel, n, Utf8Size(files[(i, rel)]));
        SizesAre(files, rel, n, Utf8Size(files[(j, rel)]));
      }
    }
    if n > 0 && AllHave(files, rel, n) &&
       forall i: nat, j: nat :: i < n && j < n ==> Utf8Size(files[(i, rel)]) == Utf8Size(files[(j, rel)])
    {
      var x := Utf8Size(files[(0, rel)]);
      assert s == {x} by {
        forall y ensures y in s <==> y == x {
          SizesAre(files, rel, n, y);
        }
      }
      assert (0, rel) in files;
    }
  }

  /** The reports of step 4: one per writable directory, in order, each with its action and parent check. */
  lemma StepsAre(files: map<Key, String>, dirs: set<Key>, modes: seq<Mode>, rel: String, merged: String, n: nat)
    requires n <= |modes|
    ensures forall t :: 0 <= t < |Steps(files, dirs, modes, rel, merged, n)| ==>
      var s := Steps(files, dirs, modes, rel, merged, n)[t];
      s.dir < n && Writable(modes[s.dir]) && s.action == ActionFor(files, s.dir, rel, merged) &&
      s.createParent == !ParentExists(dirs, s.dir, Parent(rel))
    ensures forall t, u :: 0 <= t < u < |Steps(files, dirs, modes, rel, merged, n)| ==>
      Steps(files, dirs, modes, rel, merged, n)[t].dir < Steps(files, dirs, modes, rel, merged, n)[u].dir
    ensures forall i :: 0 <= i < n && Writable(modes[i]) ==>
      exists t :: 0 <= t < |Steps(files, dirs, modes, rel, merged, n)| && Steps(files, dirs, modes, rel, merged, n)[t].dir == i
  {
    StepsSound(files, dirs, modes, rel, merged, n);
    StepsOrdered(files, dirs, modes, rel, merged, n);
    StepsCover(files, dirs, modes, rel, merged, n);
  }

  /** The last report, if directory n-1 is writable, comes after the reports for 0 .. n-2. */
  lemma StepsLast(files: map<Key, String>, dirs: set<Key>, modes: seq<Mode>, rel: String, merged: String, n: nat)
    requires 0 < n <= |modes|
    ensures var before := Steps(files, dirs, modes, rel, merged, n - 1);
      var all := Steps(files, dirs, modes, rel, merged, n);
      && all[..|before|] == before
      && (forall t :: 0 <= t < |before| ==> all[t] == before[t])
      && |all| == |before| + (if Writable(modes[n - 1]) then 1 else 0)
      && (Writable(modes[n - 1]) ==>
        all[|before|] == Step(n - 1, !ParentExists(dirs, n - 1, Parent(rel)), ActionFor(files, n - 1, rel, merged)))
  {
  }

  lemma {:induction false} StepsSound(files: map<Key, String>, dirs: set<Key>, modes: seq<Mode>, rel: String, merged: String, n: nat)
    requires n <= |modes|
    ensures forall t :: 0 <= t < |Steps(files, dirs, modes, rel, merged, n)| ==>
      var s := Steps(files, dirs, modes, rel, merged, n)[t];
      s.dir < n && Writable(modes[s.dir]) && s.action == ActionFor(files, s.dir, rel, merged) &&
      s.createParent == !ParentExists(dirs, s.dir, Parent(rel))
    decreases n
  {
    if n > 0 {
      StepsSound(files, dirs, modes, rel, merged, n - 1);
      StepsLast(files, dirs, modes, rel, merged, n);
    }
  }

  lemma {:induction false} StepsOrdered(files: map<Key, String>, dirs: set<Key>, modes: seq<Mode>, rel: String, merged: String, n: nat)
    requires n <= |modes|
    ensures forall t, u :: 0 <= t < u < |Steps(files, dirs, modes, rel, merged, n)| ==>
      Steps(files, dirs, modes, rel, merged, n)[t].dir < Steps(files, dirs, modes, rel, merged, n)[u].dir
    decreases n
  {
    if n > 0 {
      StepsOrdered(files, dirs, modes, rel, merged, n - 1);
      StepsSound(files, dirs, modes, rel, merged, n - 1);
      StepsLast(files, dirs, modes, rel, merged, n);
    }
  }

  lemma {:induction false} StepsCover(files: map<Key, String>, dirs: set<Key>, modes: seq<Mode>, rel: String, merged: String, n: nat)
    requires n <= |modes|
    ensures forall i :: 0 <= i < n && Writable(modes[i]) ==>
      exists t :: 0 <= t < |Steps(files, dirs, modes, rel, merged, n)| && Steps(files, dirs, modes, rel, merged, n)[t].dir == i
    decreases n
  {
    if n > 0 {
      StepsCover(files, dirs, modes, rel, merged, n - 1);
      StepsLast(files, dirs, modes, rel, merged, n);
      var before := Steps(files, dirs, modes, rel, merged, n - 1);
      var all := Steps(files, dirs, modes, rel, merged, n);
      forall i | 0 <= i < n && Writable(modes[i])
        ensures exists t :: 0 <= t < |all| && all[t].dir == i
      {
        if i == n - 1 {
          assert all[|before|].dir == i;
        } else {
          var t :| 0 <= t < |before| && before[t].dir == i;
          assert all[t] == before[t];
        }
      }
    }
  }

  /** Outcome of a call by case: each early return, the abort, and the sync. */
  lemma DecideCases(files: map<Key, String>, dirs: set<Key>, modes: seq<Mode>, rel: String, force: bool)
    ensures Decide(files, dirs, modes, rel, force) == ExcludedDirectory <==>
      StartsWith(Lower(rel), "logs/") || StartsWith(Lower(rel), "user_settings/")
    ensures Decide(files, dirs, modes, rel, force) == SameSize <==>
      !InExcludedDirectory(rel) && !force && |modes| > 0 && AllHave(files, rel, |modes|) &&
      forall i: nat, j: nat :: i < |modes| && j < |modes| ==> Utf8Size(files[(i, rel)]) == Utf8Size(files[(j, rel)])
    ensures Decide(files, dirs, modes, rel, force) == NotReadable <==>
      !InExcludedDirectory(rel) && !(!force && SizeSkip(files, modes, rel)) &&
      forall i :: 0 <= i < |modes| && Readable(modes[i]) ==> (i, rel) !in files
  {
    InExcludedDirectoryIff(rel);
    SizeSkipIff(files, modes, rel);
    ContentsEmpty(files, modes, rel, |modes|);
  }

  /**
   * A live run that syncs leaves every writable directory with the merged
   * text, and leaves every other file alone: read-only directories, other
   * paths and directories outside the configuration are never written.
   */
  lemma LiveRunConverges(files: map<Key, String>, dirs: set<Key>, modes: seq<Mode>, rel: String, force: bool)
    requires Decide(files, dirs, modes, rel, force).Synced?
    ensures forall i :: 0 <= i < |modes| && Writable(modes[i]) ==>
      (i, rel) in AfterFiles(files, dirs, modes, rel, force, false) &&
      AfterFiles(files, dirs, modes, rel, force, false)[(i, rel)] == Decide(files, dirs, modes, rel, force).merged
    ensures forall k :: k in AfterFiles(files, dirs, modes, rel, force, false) <==>
      k in files || (k.1 == rel && k.0 < |modes| && Writable(modes[k.0]))
    ensures forall k :: k in files && !(k.1 == rel && k.0 < |modes| && Writable(modes[k.0])) ==>
      AfterFiles(files, dirs, modes, rel, force, false)[k] == files[k]
  {
    var m := Decide(files, dirs, modes, rel, force).merged;
    forall k ensures k in Written(files, modes, rel, m, |modes|) <==> k in files || (k.1 == rel && k.0 < |modes| && Writable(modes[k.0]))
      ensures k in Written(files, modes, rel, m, |modes|) ==>
        Written(files, modes, rel, m, |modes|)[k] == if k.1 == rel && k.0 < |modes| && Writable(modes[k.0]) then m else files[k]
    {
      WrittenAt(files, modes, rel, m, |modes|, k);
    }
  }

  /** A dry run reports the same outcome and steps but changes neither files nor directories. */
  lemma DryRunChangesNothing(files: map<Key, String>, dirs: set<Key>, modes: seq<Mode>, rel: String, force: bool)
    ensures AfterFiles(files, dirs, modes, rel, force, true) == files
    ensures AfterDirs(files, dirs, modes, rel, force, true) == dirs
  {
  }

  /** A live run keeps every file inside an existing directory. */
  lemma SyncKeepsConsistent(files: map<Key, String>, dirs: set<Key>, modes: seq<Mode>, rel: String, force: bool, dryRun: bool)
    requires Consistent(files, dirs)
    ensures Consistent(AfterFiles(files, dirs, modes, rel, force, dryRun), AfterDirs(files, dirs, modes, rel, force, dryRun))
  {
    var outcome := Decide(files, dirs, modes, rel, force);
    if outcome.Synced? && !dryRun {
      var f := Written(files, modes, rel, outcome.merged, |modes|);
      var d := Created(dirs, modes, rel, |modes|);
      forall k | k in f ensures ParentExists(d, k.0, Parent(k.1)) {
        WrittenAt(files, modes, rel, outcome.merged, |modes|, k);
        CreatedAt(dirs, modes, rel, |modes|, (k.0, Parent(k.1)));
        if k in files {
          CreatedAt(dirs, modes, rel, |modes|, (k.0, Parent(k.1)));
        }
      }
    }
  }

  /**
   * When every directory is writable, a live run that synced is followed by
   * a run that skips the file on size: all copies now hold the same text.
   */
  lemma SecondRunSkips(files: map<Key, String>, dirs: set<Key>, modes: seq<Mode>, rel: String, force: bool)
    requires Decide(files, dirs, modes, rel, force).Synced?
    requires forall i :: 0 <= i < |modes| ==> Writable(modes[i])
    ensures Decide(AfterFiles(files, dirs, modes, rel, force, false), AfterDirs(files, dirs, modes, rel, force, false), modes, rel, false) == SameSize
  {
    LiveRunConverges(files, dirs, modes, rel, force);
    var f := AfterFiles(files, dirs, modes, rel, force, false);
    ContentsEmpty(files, modes, rel, |modes|);
    SizeSkipIff(f, modes, rel);
  }

  /**
   * The copies are joined with no separator (sl-chatmerge.py:428): unless
   * the first ends with a carriage return, the lines of the combined text are
   * those of the two copies with the last line of the first run into the
   * first line of the second. A copy ending in a line feed therefore keeps its
   * lines apart; one that does not fuses its last line with the next copy.
   */
  lemma CombinedLines(a: String, b: String)
    requires a == [] || a[|a| - 1] != '\r'
    ensures Lines(a + b) == Glue(Lines(a), Lines(b))
    ensures a != [] && a[|a| - 1] == '\n' ==> Lines(a + b) == Lines(a)[..|Lines(a)| - 1] + Lines(b)
  {
    LineEndingsAppend(a, b);
    var x, y := NormalizeLineEndings(a), NormalizeLineEndings(b);
    SplitConcat(x, y, '\n');
    assert Lines(a + b) == Split(x + y, '\n');
    if a != [] && a[|a| - 1] == '\n' {
      LastLineEmpty(a);
      GlueEmpty(Lines(a), Lines(b));
    }
  }

  /**
   * A run aborts exactly when the combined copies' first non-empty line
   * opens a bracket but is not a timestamp; the error carries that line,
   * cut to 80 characters.
   */
  lemma AbortedIff(files: map<Key, String>, dirs: set<Key>, modes: seq<Mode>, rel: String, force: bool)
    ensures var first := NonEmptyLines(Lines(Concat(Contents(files, modes, rel, |modes|))));
      Decide(files, dirs, modes, rel, force).Aborted? <==>
        !InExcludedDirectory(rel) && !(!force && SizeSkip(files, modes, rel)) &&
        Contents(files, modes, rel, |modes|) != [] &&
        first != [] && StartsWith(first[0], "[") && !IsOpener(first[0])
    ensures var first := NonEmptyLines(Lines(Concat(Contents(files, modes, rel, |modes|))));
      Decide(files, dirs, modes, rel, force).Aborted? ==>
        Decide(files, dirs, modes, rel, force).error == MalformedTimestamp(first[0][..Min(80, |first[0]|)])
  {
    MalformedIff(Concat(Contents(files, modes, rel, |modes|)));
  }

  /** The reading loop of step 1, with `readable_found`. */
  method ReadCopies(fs: FileSystem, modes: seq<Mode>, rel: String) returns (contents: seq<String>, found: bool)
    ensures contents == Contents(fs.files, modes, rel, |modes|)
    ensures found <==> exists i :: 0 <= i < |modes| && Readable(modes[i]) && (i, rel) in fs.files
  {
    contents := [];
    found := false;
    var i := 0;
    while i < |modes|
      invariant 0 <= i <= |modes|
      invariant contents == Contents(fs.files, modes, rel, i)
      invariant found <==> exists j :: 0 <= j < i && Readable(modes[j]) && (j, rel) in fs.files
    {
      if Readable(modes[i]) && (i, rel) in fs.files {
        found := true;
        contents := contents + [fs.files[(i, rel)]];
      }
      i := i + 1;
    }
  }

  /** The size loop of step 0. */
  method SameSizeEverywhere(fs: FileSystem, modes: seq<Mode>, rel: String) returns (skip: bool)
    ensures skip == SizeSkip(fs.files, modes, rel)
  {
    var sizes: set<nat> := {};
    var present := 0;
    var allHave := true;
    var i := 0;
    while i < |modes|
      invariant 0 <= i <= |modes|
      invariant sizes == Sizes(fs.files, rel, i)
      invariant allHave == AllHave(fs.files, rel, i)
      invariant present > 0 <==> SomeHas(fs.files, rel, i)
    {
      if (i, rel) in fs.files {
        sizes := sizes + {Utf8Size(fs.files[(i, rel)])};
        present := present + 1;
      } else {
        allHave := false;
      }
      i := i + 1;
    }
    skip := allHave && |sizes| == 1 && present > 0;
  }

  /** merge_and_sync_file: decides, then (unless a dry run) writes the merged text to every writable directory. */
  method MergeAndSyncFile(fs: FileSystem, modes: seq<Mode>, rel: String, force: bool, dryRun: bool) returns (outcome: Outcome)
    modifies fs
    ensures outcome == Decide(old(fs.files), old(fs.dirs), modes, rel, force)
    ensures fs.files == AfterFiles(old(fs.files), old(fs.dirs), modes, rel, force, dryRun)
    ensures fs.dirs == AfterDirs(old(fs.files), old(fs.dirs), modes, rel, force, dryRun)
    ensures old(fs.Valid()) ==> fs.Valid()
  {
    ghost var files, dirs := fs.files, fs.dirs;
    if Consistent(files, dirs) {
      SyncKeepsConsistent(files, dirs, modes, rel, force, dryRun);
    }
    if InExcludedDirectory(rel) {
      NothingWritten(files, dirs, modes, rel, force, dryRun);
      return ExcludedDirectory;
    }
    if !force {
      var skip := SameSizeEverywhere(fs, modes, rel);
      if skip {
        NothingWritten(files, dirs, modes, rel, force, dryRun);
        return SameSize;
      }
    }
    var contents, found := ReadCopies(fs, modes, rel);
    ContentsEmpty(fs.files, modes, rel, |modes|);
    if !found {
      NothingWritten(files, dirs, modes, rel, force, dryRun);
      return NotReadable;
    }
    var combined := Concat(contents);
    var result := SortChatLog(combined);
    if result.Err? {
      NothingWritten(files, dirs, modes, rel, force, dryRun);
      return Aborted(result.error);
    }
    var merged := result.value;
    SyncedWrites(files, dirs, modes, rel, force, dryRun, merged);
    var steps := WriteCopies(fs, modes, rel, merged, dryRun);
    outcome := Synced(merged, steps);
  }

  /** A call that does not sync leaves files and directories as they were. */
  lemma NothingWritten(files: map<Key, String>, dirs: set<Key>, modes: seq<Mode>, rel: String, force: bool, dryRun: bool)
    requires !Decide(files, dirs, modes, rel, force).Synced?
    ensures AfterFiles(files, dirs, modes, rel, force, dryRun) == files
    ensures AfterDirs(files, dirs, modes, rel, force, dryRun) == dirs
  {
  }

  /** A call whose copies merge into `merged` syncs, writing unless it is a dry run. */
  lemma SyncedWrites(files: map<Key, String>, dirs: set<Key>, modes: seq<Mode>, rel: String, force: bool, dryRun: bool, merged: String)
    requires !InExcludedDirectory(rel) && !(!force && SizeSkip(files, modes, rel))
    requires Contents(files, modes, rel, |modes|) != []
    requires SortedLog(Concat(Contents(files, modes, rel, |modes|))) == Ok(merged)
    ensures Decide(files, dirs, modes, rel, force) == Synced(merged, Steps(files, dirs, modes, rel, merged, |modes|))
    ensures AfterFiles(files, dirs, modes, rel, force, dryRun) == if dryRun then files else Written(files, modes, rel, merged, |modes|)
    ensures AfterDirs(files, dirs, modes, rel, force, dryRun) == if dryRun then dirs else Created(dirs, modes, rel, |modes|)
  {
  }

  /** Step 4: for each writable directory, create the parent if missing and add or update the copy. */
  method WriteCopies(fs: FileSystem, modes: seq<Mode>, rel: String, merged: String, dryRun: bool) returns (steps: seq<Step>)
    modifies fs
    ensures steps == Steps(old(fs.files), old(fs.dirs), modes, rel, merged, |modes|)
    ensures fs.files == if dryRun then old(fs.files) else Written(old(fs.files), modes, rel, merged, |modes|)
    ensures fs.dirs == if dryRun then old(fs.dirs) else Created(old(fs.dirs), modes, rel, |modes|)
  {
    ghost var files0 := fs.files;
    ghost var dirs0 := fs.dirs;
    steps := [];
    var i := 0;
    while i < |modes|
      invariant 0 <= i <= |modes|
      invariant steps == Steps(files0, dirs0, modes, rel, merged, i)
      invariant fs.files == if dryRun then files0 else Written(files0, modes, rel, merged, i)
      invariant fs.dirs == if dryRun then dirs0 else Created(dirs0, modes, rel, i)
    {
      if Writable(modes[i]) {
        var parent := Parent(rel);
        WrittenAt(files0, modes, rel, merged, i, (i, rel));
        CreatedAt(dirs0, modes, rel, i, (i, parent));
        var createParent := !ParentExists(fs.dirs, i, parent);
        if createParent && !dryRun {
          fs.dirs := fs.dirs + {(i, parent)};
        } else if !dryRun && parent != [] {
          assert fs.dirs + {(i, parent)} == fs.dirs;
        }
        var action;
        if (i, rel) in fs.files {
          action := if fs.files[(i, rel)] != merged then Update else Unchanged;
        } else {
          action := Add;
        }
        if action != Unchanged && !dryRun {
          fs.files := fs.files[(i, rel) := merged];
        } else if !dryRun {
          assert fs.files[(i, rel) := merged] == fs.files;
        }
        steps := steps + [Step(i, createParent, action)];
      }
      i := i + 1;
    }
  }
}
