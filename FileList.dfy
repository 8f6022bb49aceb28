/**
  The file ledger of FileListWidget (src/filelistwidget.cpp): the list of
  files with their original and new names, the set of paths already added,
  the preview computation that runs the operation pipeline over every
  name, and the rename that commits the new names to an abstract disk.
 */
module FileList {
  import opened Wrappers
  import opened QtString
  import opened Operations

  // ---------------------------------------------------------------------
  // Entries and paths
  // ---------------------------------------------------------------------

  /** FileEntry without its tree-widget item. */
  datatype FileEntry = FileEntry(fullPath: string, directory: string, originalName: string, newName: string)

  /** An entry whose preview differs from its current name: the ones applyRename acts on. */
  predicate Changed(e: FileEntry) {
    e.newName != e.originalName
  }

  /** QFileInfo::fileName: what follows the last '/'. */
  function FileName(path: string): string {
    path[LastIndexOf(path, '/') + 1..]
  }

  /** QFileInfo::absolutePath of an absolute path: what precedes the last '/', or "/" at the root. */
  function DirectoryOf(path: string): string {
    var i := LastIndexOf(path, '/');
    if i > 0 then path[..i] else if i == 0 then "/" else ""
  }

  /** directory + QDir::separator() + name, with '/' as the separator. */
  function JoinPath(directory: string, name: string): string {
    directory + "/" + name
  }

  predicate NoSlash(s: string) {
    forall k :: 0 <= k < |s| ==> s[k] != '/'
  }

  /** Joining a non-empty directory and a name without '/' is undone by DirectoryOf and FileName. */
  lemma JoinPathSplits(directory: string, name: string)
    requires directory != [] && NoSlash(name)
    ensures FileName(JoinPath(directory, name)) == name
    ensures DirectoryOf(JoinPath(directory, name)) == directory
  {
    var path := JoinPath(directory, name);
    var i := LastIndexOf(path, '/');
    assert path[|directory|] == '/';
    assert i == |directory|;
    assert path[..i] == directory;
    assert path[i + 1..] == name;
  }

  /** The entry addFiles creates for a path: its new name starts as its original name. */
  function NewEntry(path: string): (e: FileEntry)
    ensures e.fullPath == path && !Changed(e)
  {
    FileEntry(path, DirectoryOf(path), FileName(path), FileName(path))
  }

  function Entries(paths: seq<string>): (es: seq<FileEntry>)
    ensures |es| == |paths|
    ensures forall k :: 0 <= k < |paths| ==> es[k] == NewEntry(paths[k])
  {
    seq(|paths|, k requires 0 <= k < |paths| => NewEntry(paths[k]))
  }

  // ---------------------------------------------------------------------
  // The ledger invariant: the path set is the set of the entries' paths
  // ---------------------------------------------------------------------

  predicate DistinctPaths(files: seq<FileEntry>) {
    forall i, j :: 0 <= i < j < |files| ==> files[i].fullPath != files[j].fullPath
  }

  function PathsOf(files: seq<FileEntry>): set<string> {
    set e | e in files :: e.fullPath
  }

  /** filePathsSet holds exactly the paths of `files`, and no path is listed twice. */
  predicate Ledger(files: seq<FileEntry>, pathSet: set<string>) {
    DistinctPaths(files) && pathSet == PathsOf(files)
  }

  function Elements(s: seq<string>): set<string> {
    set x | x in s
  }

  predicate Distinct(s: seq<string>) {
    forall i, j :: 0 <= i < j < |s| ==> s[i] != s[j]
  }

  // ---------------------------------------------------------------------
  // addFiles
  // ---------------------------------------------------------------------

  /**
    The paths addFiles keeps from the first k of a batch, in batch order: a
    path is kept when it is an existing regular file and is neither in the
    set of paths already present nor kept earlier in the same batch.
   */
  function Admitted(paths: seq<string>, isFile: set<string>, present: set<string>, k: nat): (r: seq<string>)
    requires k <= |paths|
    ensures |r| <= k
  {
    if k == 0 then []
    else
      var prev := Admitted(paths, isFile, present, k - 1);
      var p := paths[k - 1];
      if p in isFile && p !in present && p !in prev then prev + [p] else prev
  }

  /**
    One turn of the addFiles loop: path k is appended, to the entries and to
    the set, exactly when it is a regular file not yet present.
   */
  lemma AddStep(paths: seq<string>, isFile: set<string>, present: set<string>, start: seq<FileEntry>, k: nat,
                before: seq<FileEntry>, pathsBefore: set<string>, after: seq<FileEntry>, pathsAfter: set<string>)
    requires k < |paths|
    requires before == start + Entries(Admitted(paths, isFile, present, k))
    requires pathsBefore == present + Elements(Admitted(paths, isFile, present, k))
    requires if paths[k] in isFile && paths[k] !in pathsBefore
             then after == before + [NewEntry(paths[k])] && pathsAfter == pathsBefore + {paths[k]}
             else after == before && pathsAfter == pathsBefore
    ensures after == start + Entries(Admitted(paths, isFile, present, k + 1))
    ensures pathsAfter == present + Elements(Admitted(paths, isFile, present, k + 1))
  {
    var prev, next := Admitted(paths, isFile, present, k), Admitted(paths, isFile, present, k + 1);
    var admit := paths[k] in isFile && paths[k] !in pathsBefore;
    AdmittedStep(paths, isFile, present, k, pathsBefore);
    AddStepFiles(start, prev, next, paths[k], admit, before, after);
    AddStepPaths(present, prev, next, paths[k], admit, pathsBefore, pathsAfter);
  }

  /** The entries follow the admitted paths through one turn. */
  lemma AddStepFiles(start: seq<FileEntry>, prev: seq<string>, next: seq<string>, p: string, admit: bool,
                     before: seq<FileEntry>, after: seq<FileEntry>)
    requires before == start + Entries(prev)
    requires next == if admit then prev + [p] else prev
    requires after == if admit then before + [NewEntry(p)] else before
    ensures after == start + Entries(next)
  {
    if admit {
      EntriesSnoc(prev, p);
    }
  }

  /** The path set follows the admitted paths through one turn. */
  lemma AddStepPaths(present: set<string>, prev: seq<string>, next: seq<string>, p: string, admit: bool,
                     pathsBefore: set<string>, pathsAfter: set<string>)
    requires pathsBefore == present + Elements(prev)
    requires next == if admit then prev + [p] else prev
    requires pathsAfter == if admit then pathsBefore + {p} else pathsBefore
    ensures pathsAfter == present + Elements(next)
  {
    if admit {
      ElementsSnoc(prev, p);
    }
  }

  /** Path k is admitted when it is a regular file outside the paths held so far. */
  lemma AdmittedStep(paths: seq<string>, isFile: set<string>, present: set<string>, k: nat, held: set<string>)
    requires k < |paths| && held == present + Elements(Admitted(paths, isFile, present, k))
    ensures Admitted(paths, isFile, present, k + 1)
         == if paths[k] in isFile && paths[k] !in held
            then Admitted(paths, isFile, present, k) + [paths[k]]
            else Admitted(paths, isFile, present, k)
  {
    var prev := Admitted(paths, isFile, present, k);
    assert paths[k] in Elements(prev) <==> paths[k] in prev;
  }

  lemma EntriesSnoc(prev: seq<string>, p: string)
    ensures Entries(prev + [p]) == Entries(prev) + [NewEntry(p)]
  {
    assert Entries(prev + [p])[|prev|] == NewEntry(p);
  }

  lemma ElementsSnoc(prev: seq<string>, p: string)
    ensures Elements(prev + [p]) == Elements(prev) + {p}
  {
    assert forall x :: x in prev + [p] <==> x in prev || x == p;
  }

  /**
    A path is admitted exactly when it occurs in the batch, is a regular
    file and was not present; and no path is admitted twice.
   */
  lemma {:induction false} AdmittedExactly(paths: seq<string>, isFile: set<string>, present: set<string>, k: nat)
    requires k <= |paths|
    ensures var r := Admitted(paths, isFile, present, k);
      && Distinct(r)
      && forall p :: p in r <==> (p in paths[..k] && p in isFile && p !in present)
  {
    if k > 0 {
      AdmittedExactly(paths, isFile, present, k - 1);
      var prev := Admitted(paths, isFile, present, k - 1);
      var p := paths[k - 1];
      assert paths[..k] == paths[..k - 1] + [p];
      if p in isFile && p !in present && p !in prev {
        var r := prev + [p];
        forall i, j | 0 <= i < j < |r| ensures r[i] != r[j] {
          if j == |prev| {
            assert r[i] == prev[i];
          } else {
            assert r[i] == prev[i] && r[j] == prev[j];
          }
        }
      }
    }
  }

  /** addFiles keeps the ledger invariant. */
  lemma AddKeepsLedger(files: seq<FileEntry>, pathSet: set<string>, paths: seq<string>, isFile: set<string>)
    requires Ledger(files, pathSet)
    ensures var added := Admitted(paths, isFile, pathSet, |paths|);
      Ledger(files + Entries(added), pathSet + Elements(added))
  {
    var added := Admitted(paths, isFile, pathSet, |paths|);
    AdmittedExactly(paths, isFile, pathSet, |paths|);
    AppendedPathsDistinct(files, pathSet, added);
    AppendedPathSet(files, pathSet, added);
  }

  lemma AppendedPathsDistinct(files: seq<FileEntry>, pathSet: set<string>, added: seq<string>)
    requires Ledger(files, pathSet) && Distinct(added)
    requires forall p :: p in added ==> p !in pathSet
    ensures DistinctPaths(files + Entries(added))
  {
    var all := files + Entries(added);
    forall i, j | 0 <= i < j < |all| ensures all[i].fullPath != all[j].fullPath {
      if j >= |files| {
        assert all[j].fullPath == added[j - |files|];
        if i < |files| {
          assert all[i] == files[i];
          assert all[i].fullPath in PathsOf(files);
        } else {
          assert all[i].fullPath == added[i - |files|];
        }
      } else {
        assert all[i] == files[i] && all[j] == files[j];
      }
    }
  }

  lemma AppendedPathSet(files: seq<FileEntry>, pathSet: set<string>, added: seq<string>)
    requires pathSet == PathsOf(files)
    ensures PathsOf(files + Entries(added)) == pathSet + Elements(added)
  {
    PathsOfConcat(files, Entries(added));
    PathsOfEntries(added);
  }

  /** The paths of two lists one after the other. */
  lemma PathsOfConcat(a: seq<FileEntry>, b: seq<FileEntry>)
    ensures PathsOf(a + b) == PathsOf(a) + PathsOf(b)
  {
    assert forall e :: e in a + b <==> e in a || e in b;
  }

  /** Fresh entries carry exactly the paths they were made from. */
  lemma PathsOfEntries(added: seq<string>)
    ensures PathsOf(Entries(added)) == Elements(added)
  {
    var es := Entries(added);
    forall x | x in PathsOf(es) ensures x in added {
      var e :| e in es && e.fullPath == x;
      var i :| 0 <= i < |es| && es[i] == e;
    }
    forall x | x in added ensures x in PathsOf(es) {
      var i :| 0 <= i < |added| && added[i] == x;
      assert es[i] in es;
    }
  }

  // ---------------------------------------------------------------------
  // removeSelectedFiles
  // ---------------------------------------------------------------------

  /** The entries at positions lo.. whose index is not selected, in their order. */
  function Survivors(files: seq<FileEntry>, selected: set<int>, lo: nat): (r: seq<FileEntry>)
    requires lo <= |files|
    ensures |r| <= |files| - lo
    ensures forall e :: e in r ==> e in files[lo..]
    decreases |files| - lo
  {
    if lo == |files| then []
    else
      var rest := Survivors(files, selected, lo + 1);
      if lo in selected then rest else [files[lo]] + rest
  }

  /** The paths of the selected entries at positions lo.. . */
  function RemovedPaths(files: seq<FileEntry>, selected: set<int>, lo: nat): set<string>
    requires lo <= |files|
  {
    set k | lo <= k < |files| && k in selected :: files[k].fullPath
  }

  /** How many of the positions lo.. are selected. */
  function SelectedCount(files: seq<FileEntry>, selected: set<int>, lo: nat): nat
    requires lo <= |files|
    decreases |files| - lo
  {
    if lo == |files| then 0 else (if lo in selected then 1 else 0) + SelectedCount(files, selected, lo + 1)
  }

  /** Exactly the selected entries go: the survivors are all the others. */
  lemma {:induction false} SurvivorsCount(files: seq<FileEntry>, selected: set<int>, lo: nat)
    requires lo <= |files|
    ensures |Survivors(files, selected, lo)| + SelectedCount(files, selected, lo) == |files| - lo
    decreases |files| - lo
  {
    if lo < |files| {
      SurvivorsCount(files, selected, lo + 1);
    }
  }

  /** With nothing selected, every entry survives in place. */
  lemma {:induction false} NothingSelected(files: seq<FileEntry>, lo: nat)
    requires lo <= |files|
    ensures Survivors(files, {}, lo) == files[lo..]
    decreases |files| - lo
  {
    if lo < |files| {
      NothingSelected(files, lo + 1);
      assert files[lo..] == [files[lo]] + files[lo + 1..];
    }
  }

  /** On distinct paths, the surviving paths are the paths minus those of the removed entries. */
  lemma {:induction false} SurvivorPaths(files: seq<FileEntry>, selected: set<int>, lo: nat)
    requires lo <= |files| && DistinctPaths(files)
    ensures DistinctPaths(Survivors(files, selected, lo))
    ensures PathsOf(Survivors(files, selected, lo)) == PathsOf(files[lo..]) - RemovedPaths(files, selected, lo)
    decreases |files| - lo
  {
    if lo < |files| {
      SurvivorPaths(files, selected, lo + 1);
      var rest := Survivors(files, selected, lo + 1);
      var e := files[lo];
      HeadPathIsNew(files, selected, lo);
      RemovedPathsStep(files, selected, lo);
      if lo !in selected {
        PathsOfCons(e, rest);
        ConsKeepsDistinctPaths(e, rest);
      }
    }
  }

  /** On distinct paths, the path at lo is none of those after it, removed or not. */
  lemma HeadPathIsNew(files: seq<FileEntry>, selected: set<int>, lo: nat)
    requires lo < |files| && DistinctPaths(files)
    ensures PathsOf(files[lo..]) == {files[lo].fullPath} + PathsOf(files[lo + 1..])
    ensures files[lo].fullPath !in PathsOf(files[lo + 1..])
    ensures files[lo].fullPath !in RemovedPaths(files, selected, lo + 1)
  {
    var e := files[lo];
    assert files[lo..] == [e] + files[lo + 1..];
    PathsOfCons(e, files[lo + 1..]);
    forall x | x in files[lo + 1..] ensures x.fullPath != e.fullPath {
      var j :| 0 <= j < |files[lo + 1..]| && files[lo + 1..][j] == x;
      assert x == files[lo + 1 + j];
    }
  }

  /** The paths removed from lo on: the one at lo when it is selected, then those after it. */
  lemma RemovedPathsStep(files: seq<FileEntry>, selected: set<int>, lo: nat)
    requires lo < |files|
    ensures RemovedPaths(files, selected, lo)
         == (if lo in selected then {files[lo].fullPath} else {}) + RemovedPaths(files, selected, lo + 1)
  {
  }

  /** The paths of an entry put in front of others. */
  lemma PathsOfCons(e: FileEntry, rest: seq<FileEntry>)
    ensures PathsOf([e] + rest) == {e.fullPath} + PathsOf(rest)
  {
    assert forall x :: x in [e] + rest <==> x == e || x in rest;
  }

  /** An entry whose path is not among those of `rest` can go in front of it. */
  lemma ConsKeepsDistinctPaths(e: FileEntry, rest: seq<FileEntry>)
    requires DistinctPaths(rest) && e.fullPath !in PathsOf(rest)
    ensures DistinctPaths([e] + rest)
  {
    var r := [e] + rest;
    forall i, j | 0 <= i < j < |r| ensures r[i].fullPath != r[j].fullPath {
      assert r[j] == rest[j - 1];
      if i > 0 {
        assert r[i] == rest[i - 1];
      }
    }
  }

  /** Before the entry at position i is looked at, it is still in place. */
  lemma RemoveStepBounds(start: seq<FileEntry>, selected: set<int>, i: nat, above: nat, before: seq<FileEntry>)
    requires above == i + 1 <= |start| && before == start[..above] + Survivors(start, selected, above)
    ensures i < |before| && before[i] == start[i]
  {
  }

  /**
    One turn of removeSelectedFiles' loop, from position above = i + 1 down
    to i: a selected entry leaves the list and its path leaves the set.
   */
  lemma RemoveStep(start: seq<FileEntry>, selected: set<int>, present: set<string>, i: nat, above: nat,
                   before: seq<FileEntry>, pathsBefore: set<string>, after: seq<FileEntry>, pathsAfter: set<string>)
    requires above == i + 1 <= |start|
    requires before == start[..above] + Survivors(start, selected, above)
    requires pathsBefore == present - RemovedPaths(start, selected, above)
    requires after == if i in selected then before[..i] + before[i + 1..] else before
    requires pathsAfter == if i in selected then pathsBefore - {before[i].fullPath} else pathsBefore
    ensures after == start[..i] + Survivors(start, selected, i)
    ensures pathsAfter == present - RemovedPaths(start, selected, i)
  {
    RemoveStepBounds(start, selected, i, above, before);
    RemoveStepFiles(start, selected, i, above, before, after);
    RemoveStepPaths(start, selected, present, i, pathsBefore, pathsAfter);
  }

  /** The entries after one turn: entry i leaves when selected, and the part below i is untouched. */
  lemma RemoveStepFiles(start: seq<FileEntry>, selected: set<int>, i: nat, above: nat,
                        before: seq<FileEntry>, after: seq<FileEntry>)
    requires above == i + 1 <= |start|
    requires before == start[..above] + Survivors(start, selected, above)
    requires after == if i in selected then before[..i] + before[i + 1..] else before
    ensures after == start[..i] + Survivors(start, selected, i)
  {
    var tail := Survivors(start, selected, above);
    assert start[..above] == start[..i] + [start[i]];
    if i in selected {
      assert before[..i] == start[..i];
      assert before[i + 1..] == tail;
    } else {
      assert before == start[..i] + ([start[i]] + tail);
    }
  }

  /** The path set after one turn: the path of entry i leaves when it is selected. */
  lemma RemoveStepPaths(start: seq<FileEntry>, selected: set<int>, present: set<string>, i: nat,
                        pathsBefore: set<string>, pathsAfter: set<string>)
    requires i < |start|
    requires pathsBefore == present - RemovedPaths(start, selected, i + 1)
    requires pathsAfter == if i in selected then pathsBefore - {start[i].fullPath} else pathsBefore
    ensures pathsAfter == present - RemovedPaths(start, selected, i)
  {
    RemovedPathsStep(start, selected, i);
  }

  /** removeSelectedFiles keeps the ledger invariant. */
  lemma RemoveKeepsLedger(files: seq<FileEntry>, pathSet: set<string>, selected: set<int>)
    requires Ledger(files, pathSet)
    ensures Ledger(Survivors(files, selected, 0), pathSet - RemovedPaths(files, selected, 0))
  {
    SurvivorPaths(files, selected, 0);
    assert files[0..] == files;
  }

  // ---------------------------------------------------------------------
  // The operation pipeline and the preview encoding
  // ---------------------------------------------------------------------

  /**
    The name after the operations, applied first to last; a null entry in
    the list is skipped.
   */
  function Pipeline(name: string, ops: seq<Option<Operation>>, fileIndex: nat, qt: TextServices): string
    decreases |ops|
  {
    if ops == [] then name
    else ApplyIfPresent(ops[|ops| - 1], Pipeline(name, ops[..|ops| - 1], fileIndex, qt), fileIndex, qt)
  }

  /** One entry of the operation list: a null entry leaves the name alone. */
  function ApplyIfPresent(op: Option<Operation>, name: string, fileIndex: nat, qt: TextServices): string {
    match op
    case None => name
    case Some(o) => Perform(o, name, fileIndex, qt)
  }

  /** Running two lists of operations one after the other is running their concatenation. */
  lemma {:induction false} PipelineConcat(name: string, a: seq<Option<Operation>>, b: seq<Option<Operation>>, fileIndex: nat, qt: TextServices)
    ensures Pipeline(name, a + b, fileIndex, qt) == Pipeline(Pipeline(name, a, fileIndex, qt), b, fileIndex, qt)
    decreases |b|
  {
    if b == [] {
      assert a + b == a;
    } else {
      var init := b[..|b| - 1];
      PipelineConcat(name, a, init, fileIndex, qt);
      LastOfConcat(a, b);
    }
  }

  /** The last element of a + b, and what comes before it, when b is not empty. */
  lemma LastOfConcat<T>(a: seq<T>, b: seq<T>)
    requires b != []
    ensures (a + b)[..|a + b| - 1] == a + b[..|b| - 1] && (a + b)[|a + b| - 1] == b[|b| - 1]
  {
    assert (a + b)[..|a + b| - 1] == a + b[..|b| - 1];
  }

  /** The operations that are there, in their order. */
  function Present(ops: seq<Option<Operation>>): seq<Operation>
    decreases |ops|
  {
    if ops == [] then []
    else
      var init := Present(ops[..|ops| - 1]);
      match ops[|ops| - 1]
      case None => init
      case Some(op) => init + [op]
  }

  function Lift(ops: seq<Operation>): seq<Option<Operation>> {
    seq(|ops|, k requires 0 <= k < |ops| => Some(ops[k]))
  }

  /** Null entries change nothing: the pipeline is the pipeline of the operations that are present. */
  lemma {:induction false} NullsSkipped(name: string, ops: seq<Option<Operation>>, fileIndex: nat, qt: TextServices)
    ensures Pipeline(name, ops, fileIndex, qt) == Pipeline(name, Lift(Present(ops)), fileIndex, qt)
    decreases |ops|
  {
    if ops != [] {
      var init := ops[..|ops| - 1];
      NullsSkipped(name, init, fileIndex, qt);
      match ops[|ops| - 1]
      case None =>
      case Some(op) =>
        var p := Present(init);
        assert Lift(p + [op]) == Lift(p) + [Some(op)];
        assert Lift(p + [op])[..|Lift(p + [op])| - 1] == Lift(p);
    }
  }

  /**
    FileListWidget::applyOperations: each operation that is there rewrites
    the running name in turn.
   */
  method ApplyOperations(fileName: string, operations: seq<Option<Operation>>, fileIndex: nat, qt: TextServices)
    returns (result: string)
    ensures result == Pipeline(fileName, operations, fileIndex, qt)
  {
    result := fileName;
    for k := 0 to |operations|
      invariant result == Pipeline(fileName, operations[..k], fileIndex, qt)
    {
      assert operations[..k + 1][..k] == operations[..k];
      match operations[k]
      case Some(op) =>
        result := Perform(op, result, fileIndex, qt);
      case None =>
    }
    assert operations[..|operations|] == operations;
  }

  /** QString("%1|%2").arg(i).arg(name): the index in decimal, a bar, the name. */
  function Encode(i: nat, name: string): (s: string)
    ensures |s| > |name|
  {
    NatToDecimal(i) + "|" + name
  }

  /**
    The decoding inside the mapped preview function: split at the first '|', the index
    read by toInt; a string without '|' is the name of file 0.
   */
  function Decode(s: string): (r: (int, string))
    ensures IndexOf(s, '|') < 0 ==> r == (0, s)
  {
    var sep := IndexOf(s, '|');
    if sep >= 0 then (ToInt(s[..sep]), s[sep + 1..]) else (0, s)
  }

  /** Decoding gives back the index and the name, whatever '|' the name itself holds. */
  lemma DecodeEncode(i: nat, name: string)
    requires i <= MaxInt
    ensures Decode(Encode(i, name)) == (i, name)
  {
    var digits := NatToDecimal(i);
    var s := Encode(i, name);
    assert s[|digits|] == '|';
    assert forall k :: 0 <= k < |digits| ==> s[k] == digits[k];
    assert IndexOf(s, '|') == |digits|;
    assert s[..|digits|] == digits;
    assert s[|digits| + 1..] == name;
    ToIntOfDigits(digits);
  }

  /** One turn of the encoding loop of updatePreviews: the next name is encoded with its index. */
  lemma EncodeStep(entries: seq<FileEntry>, names: seq<string>, i: nat)
    requires i < |entries| && |names| == i
    requires forall k :: 0 <= k < i ==> names[k] == Encode(k, entries[k].originalName)
    ensures var next := names + [Encode(i, entries[i].originalName)];
      forall k :: 0 <= k < i + 1 ==> next[k] == Encode(k, entries[k].originalName)
  {
  }

  /** One turn of the preview loop: the next result is the pipeline run on the next name. */
  lemma PreviewStep(entries: seq<FileEntry>, operations: seq<Option<Operation>>, qt: TextServices,
                    results: seq<string>, i: nat, r: string)
    requires i < |entries| && |results| == i
    requires forall k :: 0 <= k < i ==> results[k] == Pipeline(entries[k].originalName, operations, k, qt)
    requires r == Pipeline(entries[i].originalName, operations, i, qt)
    ensures forall k :: 0 <= k < i + 1 ==> (results + [r])[k] == Pipeline(entries[k].originalName, operations, k, qt)
  {
  }

  /** The entries with the preview results as their new names. */
  function WithNewNames(files: seq<FileEntry>, results: seq<string>): (r: seq<FileEntry>)
    requires |results| == |files|
    ensures |r| == |files|
  {
    seq(|files|, k requires 0 <= k < |files| => files[k].(newName := results[k]))
  }

  /**
    Taking the previews changes only the new names, and an entry is marked
    changed exactly when its preview differs from its original name.
   */
  lemma NewNamesMarkChanges(files: seq<FileEntry>, results: seq<string>, k: nat)
    requires |results| == |files| && k < |files|
    ensures var e := WithNewNames(files, results)[k];
      && e.fullPath == files[k].fullPath && e.directory == files[k].directory
      && e.originalName == files[k].originalName && e.newName == results[k]
      && (Changed(e) <==> results[k] != files[k].originalName)
  {
  }

  /** Taking the previews keeps every path in place, so the list and the path set stay in step. */
  lemma NewNamesKeepLedger(files: seq<FileEntry>, results: seq<string>, pathSet: set<string>)
    requires |results| == |files| && Ledger(files, pathSet)
    ensures Ledger(WithNewNames(files, results), pathSet)
  {
    var r := WithNewNames(files, results);
    forall p | p in PathsOf(r) ensures p in PathsOf(files) {
      var e :| e in r && e.fullPath == p;
      var k :| 0 <= k < |r| && r[k] == e;
      assert files[k] in files;
    }
    forall p | p in PathsOf(files) ensures p in PathsOf(r) {
      var e :| e in files && e.fullPath == p;
      var k :| 0 <= k < |files| && files[k] == e;
      assert r[k] in r;
    }
  }

  // ---------------------------------------------------------------------
  // applyRename
  // ---------------------------------------------------------------------

  /**
    The file system as applyRename sees it: the paths that exist, and the
    renames the system refuses with the error text it gives (permissions,
    a full disk, a busy file).
   */
  datatype Disk = Disk(existing: set<string>, refusals: map<string, string>)

  /** Where an entry is renamed to. */
  function TargetPath(e: FileEntry): (path: string)
    ensures e.directory != [] && NoSlash(e.newName) ==> FileName(path) == e.newName && DirectoryOf(path) == e.directory
  {
    if e.directory != [] && NoSlash(e.newName) then
      JoinPathSplits(e.directory, e.newName);
      JoinPath(e.directory, e.newName)
    else
      JoinPath(e.directory, e.newName)
  }

  const MissingSource: string := "Source file does not exist."

  /** The message for a target that exists already: the original name, then the new name it would take. */
  function ConflictMessage(e: FileEntry): (m: string)
    ensures |m| > 31 + |e.originalName| + |e.newName|
    ensures m[..15] == "Cannot rename '" && m[15..15 + |e.originalName|] == e.originalName
    ensures m[31 + |e.originalName|..31 + |e.originalName| + |e.newName|] == e.newName
  {
    "Cannot rename '" + e.originalName + "': target file '" + e.newName + "' already exists"
  }

  /** The message for a rename that failed: the original name, then the reason given. */
  function FailureMessage(e: FileEntry, reason: string): (m: string)
    ensures |m| > 18 + |e.originalName| + |reason|
    ensures m[..18] == "Failed to rename '" && m[18..18 + |e.originalName|] == e.originalName
    ensures m[|m| - |reason|..] == reason
  {
    "Failed to rename '" + e.originalName + "': " + reason
  }

  /** A conflict and a failed rename never give the same message, whatever the names and the reason. */
  lemma ErrorKindsDiffer(e: FileEntry, f: FileEntry, reason: string)
    ensures ConflictMessage(e) != FailureMessage(f, reason)
  {
    assert ConflictMessage(e)[0] == 'C' && FailureMessage(f, reason)[0] == 'F';
  }

  /** The state applyRename carries through its loop. */
  datatype RenameState = RenameState(files: seq<FileEntry>, successCount: nat, errors: seq<string>, existing: set<string>)

  /** Whether QFile::rename moves the file at `path`: it must exist and the system must not refuse. */
  predicate RenameSucceeds(path: string, existing: set<string>, refusals: map<string, string>) {
    path in existing && path !in refusals
  }

  function RenameError(path: string, existing: set<string>, refusals: map<string, string>): string {
    if path !in existing then MissingSource
    else if path in refusals then refusals[path]
    else ""
  }

  /** One iteration of the applyRename loop, on entry i. */
  function RenameStep(st: RenameState, i: nat, refusals: map<string, string>): (r: RenameState)
    requires i < |st.files|
    ensures |r.files| == |st.files|
    ensures forall k :: 0 <= k < |st.files| && k != i ==> r.files[k] == st.files[k]
  {
    var e := st.files[i];
    if !Changed(e) then st
    else
      var newPath := TargetPath(e);
      if newPath in st.existing then
        st.(errors := st.errors + [ConflictMessage(e)])
      else if RenameSucceeds(e.fullPath, st.existing, refusals) then
        st.(files := st.files[i := e.(fullPath := newPath, originalName := e.newName)],
            successCount := st.successCount + 1,
            existing := st.existing - {e.fullPath} + {newPath})
      else
        st.(errors := st.errors + [FailureMessage(e, RenameError(e.fullPath, st.existing, refusals))])
  }

  /** The state after the loop has handled the first k entries. */
  function RenameRun(files: seq<FileEntry>, disk: Disk, k: nat): (r: RenameState)
    requires k <= |files|
    ensures |r.files| == |files|
  {
    if k == 0 then RenameState(files, 0, [], disk.existing)
    else RenameStep(RenameRun(files, disk, k - 1), k - 1, disk.refusals)
  }

  /** The loop has not touched the entries it has not reached. */
  lemma {:induction false} NotYetReached(files: seq<FileEntry>, disk: Disk, k: nat)
    requires k <= |files|
    ensures forall j :: k <= j < |files| ==> RenameRun(files, disk, k).files[j] == files[j]
  {
    if k > 0 {
      NotYetReached(files, disk, k - 1);
    }
  }

  /** Entry i was renamed by the loop. */
  predicate Renamed(files: seq<FileEntry>, disk: Disk, i: nat)
    requires i < |files|
  {
    RenameRun(files, disk, i + 1).successCount == RenameRun(files, disk, i).successCount + 1
  }

  function ChangedCount(files: seq<FileEntry>): nat {
    if files == [] then 0 else ChangedCount(files[..|files| - 1]) + (if Changed(files[|files| - 1]) then 1 else 0)
  }

  /** Every changed entry ends in exactly one success or one error; unchanged ones in neither. */
  lemma {:induction false} EveryChangeAccounted(files: seq<FileEntry>, disk: Disk, k: nat)
    requires k <= |files|
    ensures var st := RenameRun(files, disk, k); st.successCount + |st.errors| == ChangedCount(files[..k])
  {
    if k > 0 {
      EveryChangeAccounted(files, disk, k - 1);
      NotYetReached(files, disk, k - 1);
      assert files[..k][..k - 1] == files[..k - 1];
    }
  }

  /** A rename never overwrites: the number of files on the disk stays the same. */
  lemma {:induction false} NoFileLost(files: seq<FileEntry>, disk: Disk, k: nat)
    requires k <= |files|
    ensures |RenameRun(files, disk, k).existing| == |disk.existing|
  {
    if k > 0 {
      NoFileLost(files, disk, k - 1);
    }
  }

  /**
    A renamed entry now names its new file: its path is its directory joined
    with its new name, and (for a name without '/') that path splits back
    into the entry's directory and name.
   */
  lemma RenamedEntry(files: seq<FileEntry>, disk: Disk, i: nat)
    requires i < |files| && Renamed(files, disk, i)
    ensures var e := RenameRun(files, disk, i + 1).files[i];
      && e.fullPath == TargetPath(files[i]) && e.originalName == files[i].newName
      && e.newName == files[i].newName && e.directory == files[i].directory
      && TargetPath(files[i]) !in RenameRun(files, disk, i).existing
    ensures var e := RenameRun(files, disk, i + 1).files[i];
      files[i].directory != [] && NoSlash(files[i].newName) ==>
        FileName(e.fullPath) == e.originalName && DirectoryOf(e.fullPath) == e.directory
  {
    NotYetReached(files, disk, i);
  }

  /** The entries' files still in place exist: those the loop has not reached yet. */
  lemma {:induction false} PendingFilesExist(files: seq<FileEntry>, disk: Disk, k: nat)
    requires k <= |files| && DistinctPaths(files)
    requires forall j :: 0 <= j < |files| ==> files[j].fullPath in disk.existing
    ensures forall j :: k <= j < |files| ==> files[j].fullPath in RenameRun(files, disk, k).existing
  {
    if k > 0 {
      PendingFilesExist(files, disk, k - 1);
      NotYetReached(files, disk, k - 1);
      forall j | k <= j < |files| ensures files[j].fullPath in RenameRun(files, disk, k).existing {
        assert files[j].fullPath != files[k - 1].fullPath;
      }
    }
  }

  /** Once entry i is renamed, its target exists for the rest of the loop. */
  lemma {:induction false} TargetStays(files: seq<FileEntry>, disk: Disk, i: nat, k: nat)
    requires i < k <= |files| && Renamed(files, disk, i) && DistinctPaths(files)
    requires forall j :: 0 <= j < |files| ==> files[j].fullPath in disk.existing
    ensures TargetPath(files[i]) in RenameRun(files, disk, k).existing
  {
    NotYetReached(files, disk, i);
    if k > i + 1 {
      TargetStays(files, disk, i, k - 1);
      PendingFilesExist(files, disk, i);
      NotYetReached(files, disk, i);
      NotYetReached(files, disk, k - 1);
      assert files[k - 1].fullPath in RenameRun(files, disk, i).existing;
    }
  }

  /**
    When two entries would be renamed to the same path, at most one of them
    is: the second finds the first one's file already there.
   */
  lemma SharedTargetRenamedOnce(files: seq<FileEntry>, disk: Disk, i: nat, j: nat)
    requires i < j < |files| && DistinctPaths(files)
    requires forall k :: 0 <= k < |files| ==> files[k].fullPath in disk.existing
    requires TargetPath(files[i]) == TargetPath(files[j])
    ensures !(Renamed(files, disk, i) && Renamed(files, disk, j))
  {
    if Renamed(files, disk, i) {
      TargetStays(files, disk, i, j);
      NotYetReached(files, disk, j);
    }
  }

  /** After a run without errors, none of the entries it handled has a change pending. */
  lemma {:induction false} ErrorsFreeRunSettles(files: seq<FileEntry>, disk: Disk, k: nat)
    requires k <= |files|
    requires RenameRun(files, disk, k).errors == []
    ensures forall j :: 0 <= j < k ==> !Changed(RenameRun(files, disk, k).files[j])
  {
    if k > 0 {
      var prev := RenameRun(files, disk, k - 1);
      assert |prev.errors| <= |RenameRun(files, disk, k).errors|;
      ErrorsFreeRunSettles(files, disk, k - 1);
    }
  }

  /** No entry has a change pending. */
  predicate Settled(files: seq<FileEntry>) {
    forall j :: 0 <= j < |files| ==> !Changed(files[j])
  }

  /** A whole run without errors leaves no change pending. */
  lemma {:induction false} FullRunSettles(files: seq<FileEntry>, disk: Disk)
    requires RenameRun(files, disk, |files|).errors == []
    ensures Settled(RenameRun(files, disk, |files|).files)
  {
    ErrorsFreeRunSettles(files, disk, |files|);
  }

  /** With no change pending, the loop renames nothing and reports nothing. */
  lemma {:induction false} NothingPendingNothingDone(files: seq<FileEntry>, disk: Disk, k: nat)
    requires k <= |files| && Settled(files)
    ensures RenameRun(files, disk, k) == RenameState(files, 0, [], disk.existing)
  {
    if k > 0 {
      NothingPendingNothingDone(files, disk, k - 1);
    }
  }

  /** A second applyRename after one without errors renames nothing and reports nothing. */
  lemma {:induction false} SecondRenameIsIdle(files: seq<FileEntry>, disk: Disk, first: RenameState)
    requires first == RenameRun(files, disk, |files|) && first.errors == []
    ensures RenameRun(first.files, Disk(first.existing, disk.refusals), |first.files|)
            == RenameState(first.files, 0, [], first.existing)
  {
    FullRunSettles(files, disk);
    NothingPendingNothingDone(first.files, Disk(first.existing, disk.refusals), |first.files|);
  }

  /**
    applyRename does not touch the path set. After `/d/a` is renamed to
    `/d/b`, the set still holds `/d/a` and no longer matches the list, and
    adding `/d/b` would list that file a second time.
   */
  lemma RenameLeavesPathSetStale()
    ensures var e := FileEntry("/d/a", "/d", "a", "b");
      var st := RenameRun([e], Disk({"/d/a"}, map[]), 1);
      && st.files == [FileEntry("/d/b", "/d", "b", "b")]
      && Ledger([e], {"/d/a"}) && !Ledger(st.files, {"/d/a"})
      && Admitted(["/d/b"], {"/d/b"}, {"/d/a"}, 1) == ["/d/b"]
  {
    var e := FileEntry("/d/a", "/d", "a", "b");
    assert TargetPath(e) == "/d/b";
    var st0 := RenameRun([e], Disk({"/d/a"}, map[]), 0);
    assert st0 == RenameState([e], 0, [], {"/d/a"});
    assert "/d/b" !in st0.existing && RenameSucceeds(e.fullPath, st0.existing, map[]);
    var st := RenameRun([e], Disk({"/d/a"}, map[]), 1);
    assert st == RenameStep(st0, 0, map[]);
    assert st.files == [FileEntry("/d/b", "/d", "b", "b")];
    assert PathsOf([e]) == {"/d/a"};
    assert "/d/b" in PathsOf(st.files);
  }

  // ---------------------------------------------------------------------
  // The widget
  // ---------------------------------------------------------------------

  /** FileListWidget: the file list and the set of its paths. */
  class FileListWidget {
    var files: seq<FileEntry>
    var filePathsSet: set<string>

    ghost predicate Valid()
      reads this
    {
      Ledger(files, filePathsSet)
    }

    constructor()
      ensures files == [] && filePathsSet == {} && Valid()
    {
      files := [];
      filePathsSet := {};
    }

    /**
      addFiles: the admitted paths of the batch are appended in batch order
      as fresh entries and added to the path set; `isFile` is the set of
      paths that are existing regular files.
     */
    method AddFiles(filePaths: seq<string>, isFile: set<string>)
      modifies this
      ensures var added := Admitted(filePaths, isFile, old(filePathsSet), |filePaths|);
        && files == old(files) + Entries(added)
        && filePathsSet == old(filePathsSet) + Elements(added)
      ensures old(Valid()) ==> Valid()
    {
      ghost var present, start := filePathsSet, files;
      var entries, paths := files, filePathsSet;
      for k := 0 to |filePaths|
        invariant entries == start + Entries(Admitted(filePaths, isFile, present, k))
        invariant paths == present + Elements(Admitted(filePaths, isFile, present, k))
      {
        var filePath := filePaths[k];
        ghost var before, pathsBefore := entries, paths;
        if filePath in isFile && filePath !in paths {
          entries := entries + [NewEntry(filePath)];
          paths := paths + {filePath};
        }
        AddStep(filePaths, isFile, present, start, k, before, pathsBefore, entries, paths);
      }
      files, filePathsSet := entries, paths;
      if old(Valid()) {
        AddKeepsLedger(start, present, filePaths, isFile);
      }
    }

    /** clearFiles: the list and the path set are emptied. */
    method ClearFiles()
      modifies this
      ensures files == [] && filePathsSet == {} && Valid()
    {
      files := [];
      filePathsSet := {};
    }

    /**
      removeSelectedFiles, with the selection given as the positions of the
      selected rows: from the last entry to the first, a selected entry
      leaves the list and its path leaves the set.
     */
    method RemoveSelectedFiles(selected: set<int>)
      modifies this
      ensures files == Survivors(old(files), selected, 0)
      ensures filePathsSet == old(filePathsSet) - RemovedPaths(old(files), selected, 0)
      ensures old(Valid()) ==> Valid()
    {
      ghost var start, present := files, filePathsSet;
      if old(Valid()) {
        RemoveKeepsLedger(start, present, selected);
      }
      if selected == {} {
        NothingSelected(files, 0);
        assert files[0..] == files;
        assert RemovedPaths(start, selected, 0) == {};
        return;
      }
      var i := |files|;
      while i > 0
        invariant 0 <= i <= |start|
        invariant files == start[..i] + Survivors(start, selected, i)
        invariant filePathsSet == present - RemovedPaths(start, selected, i)
      {
        ghost var above, before, pathsBefore := i, files, filePathsSet;
        i := i - 1;
        RemoveStepBounds(start, selected, i, above, before);
        if i in selected {
          filePathsSet := filePathsSet - {files[i].fullPath};
          files := files[..i] + files[i + 1..];
        }
        RemoveStep(start, selected, present, i, above, before, pathsBefore, files, filePathsSet);
      }
    }

    /**
      updatePreviews: nothing starts for an empty list; otherwise every
      original name is encoded with its index, decoded again by the mapped function
      and run through the operations. The calls run one after the other.
     */
    method UpdatePreviews(operations: seq<Option<Operation>>, qt: TextServices)
      returns (started: bool, results: seq<string>)
      requires |files| <= MaxInt
      ensures started <==> files != []
      ensures |results| == if started then |files| else 0
      ensures forall k :: 0 <= k < |results| ==> results[k] == Pipeline(files[k].originalName, operations, k, qt)
    {
      if files == [] {
        return false, [];
      }
      var entries := files;
      var originalNames: seq<string> := [];
      for i := 0 to |entries|
        invariant |originalNames| == i
        invariant forall k :: 0 <= k < i ==> originalNames[k] == Encode(k, entries[k].originalName)
      {
        EncodeStep(entries, originalNames, i);
        originalNames := originalNames + [Encode(i, entries[i].originalName)];
      }
      results := [];
      for i := 0 to |originalNames|
        invariant |results| == i
        invariant forall k :: 0 <= k < i ==> results[k] == Pipeline(entries[k].originalName, operations, k, qt)
      {
        var (fileIndex, fileName) := Decode(originalNames[i]);
        DecodeEncode(i, entries[i].originalName);
        var r := ApplyOperations(fileName, operations, fileIndex, qt);
        PreviewStep(entries, operations, qt, results, i, r);
        results := results + [r];
      }
      started := true;
    }

    /**
      onPreviewsReady: a batch whose size is not the number of files is
      dropped; otherwise result k becomes the new name of entry k.
     */
    method OnPreviewsReady(results: seq<string>)
      modifies this
      ensures |results| != |old(files)| ==> files == old(files)
      ensures |results| == |old(files)| ==> files == WithNewNames(old(files), results)
      ensures filePathsSet == old(filePathsSet)
      ensures old(Valid()) ==> Valid()
    {
      if |results| != |files| {
        return;
      }
      ghost var start := files;
      for i := 0 to |files|
        invariant |files| == |start| && filePathsSet == old(filePathsSet)
        invariant forall k :: 0 <= k < i ==> files[k] == start[k].(newName := results[k])
        invariant forall k :: i <= k < |files| ==> files[k] == start[k]
      {
        files := files[i := files[i].(newName := results[i])];
      }
      assert files == WithNewNames(start, results);
      if Ledger(start, filePathsSet) {
        NewNamesKeepLedger(start, results, filePathsSet);
      }
    }

    /**
      applyRename: every changed entry is renamed to its new name in its
      directory unless that path exists or the rename fails, each failure
      giving one error; returns the number renamed, the errors and the
      paths on the disk afterwards.
     */
    method ApplyRename(disk: Disk) returns (successCount: nat, errors: seq<string>, existing: set<string>)
      modifies this
      ensures var st := RenameRun(old(files), disk, |old(files)|);
        && files == st.files && successCount == st.successCount
        && errors == st.errors && existing == st.existing
      ensures filePathsSet == old(filePathsSet)
    {
      ghost var start := files;
      successCount := 0;
      errors := [];
      existing := disk.existing;
      for i := 0 to |files|
        invariant |files| == |start| && filePathsSet == old(filePathsSet)
        invariant RenameRun(start, disk, i) == RenameState(files, successCount, errors, existing)
      {
        if files[i].newName == files[i].originalName {
          continue;
        }
        var oldPath := files[i].fullPath;
        var newPath := JoinPath(files[i].directory, files[i].newName);
        if newPath in existing {
          errors := errors + [ConflictMessage(files[i])];
          continue;
        }
        if RenameSucceeds(oldPath, existing, disk.refusals) {
          files := files[i := files[i].(fullPath := newPath, originalName := files[i].newName)];
          existing := existing - {oldPath} + {newPath};
          successCount := successCount + 1;
        } else {
          errors := errors + [FailureMessage(files[i], RenameError(oldPath, existing, disk.refusals))];
        }
      }
      assert RenameRun(start, disk, |start|) == RenameState(files, successCount, errors, existing);
    }
  }
}
