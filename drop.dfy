/** `gpp drop`: unstage staged files, named on the command line or picked
    from a menu (src/commands/drop.ts). The staged changes are the status
    parser's output, given as input; each `git restore --staged` call is given
    as the exit code it returns, if any; the prompts are given as their answers. */
module Drop {
  import opened Wrappers
  import opened Seqs
  import opened Constants

  datatype ChangeStatus = Created | Modified | Deleted | Renamed

  /** One entry of `ParsedChanges`. */
  datatype Change = Change(fileName: string, changeStatus: ChangeStatus)

  /** One entry of the checkbox menu: the change it shows and the value it yields. */
  datatype Choice = Choice(name: Change, value: string)

  /** `file` is the name of some staged change. */
  ghost predicate IsStaged(file: string, changes: seq<Change>)
  {
    exists i :: 0 <= i < |changes| && changes[i].fileName == file
  }

  /** `changes.map((c) => c.fileName)`. */
  function FileNames(changes: seq<Change>): (r: seq<string>)
    ensures |r| == |changes|
    ensures forall f :: f in r <==> IsStaged(f, changes)
  {
    if changes == [] then []
    else
      var rest := FileNames(changes[1..]);
      assert forall f :: IsStaged(f, changes) <==> changes[0].fileName == f || IsStaged(f, changes[1..]) by {
        forall f | IsStaged(f, changes) && changes[0].fileName != f
          ensures IsStaged(f, changes[1..])
        {
          var i :| 0 <= i < |changes| && changes[i].fileName == f;
          assert changes[1..][i - 1] == changes[i];
        }
        forall f | IsStaged(f, changes[1..])
          ensures IsStaged(f, changes)
        {
          var i :| 0 <= i < |changes[1..]| && changes[1..][i].fileName == f;
          assert changes[i + 1] == changes[1..][i];
        }
      }
      [changes[0].fileName] + rest
  }

  /** The provided files that are not staged, in argument order. */
  function InvalidFiles(files: seq<string>, changes: seq<Change>): seq<string>
  {
    var stagedFileNames := FileNames(changes);
    Filter(files, f => f !in stagedFileNames)
  }

  /** What `validateProvidedFileArgs` decides: go on, or print the invalid
      files and exit with the given code. */
  datatype Validation = Proceed | Abort(exitCode: int, invalidFiles: seq<string>)

  /** `validateProvidedFileArgs`. */
  function ValidateProvidedFileArgs(files: seq<string>, changes: seq<Change>): (r: Validation)
    ensures r.Abort? <==> exists i :: 0 <= i < |files| && !IsStaged(files[i], changes)
    ensures r.Abort? ==> r.exitCode == ExitFailure && r.invalidFiles == InvalidFiles(files, changes)
  {
    var invalidFiles := InvalidFiles(files, changes);
    FilterNone(files, f => f !in FileNames(changes));
    if |invalidFiles| > 0 then Abort(ExitFailure, invalidFiles) else Proceed
  }

  /** A file is reported invalid exactly when it was provided and is not staged. */
  lemma InvalidFilesExactly(files: seq<string>, changes: seq<Change>, f: string)
    ensures f in InvalidFiles(files, changes) <==> f in files && !IsStaged(f, changes)
  {
  }

  /** `parsedChanges.filter((item) => selectedFiles.includes(item.fileName))`. */
  function SelectedChanges(changes: seq<Change>, selectedFiles: seq<string>): seq<Change>
  {
    Filter(changes, (c: Change) => c.fileName in selectedFiles)
  }

  /** A change is shown for confirmation exactly when it is staged and its file was selected. */
  lemma SelectedChangesExactly(changes: seq<Change>, selectedFiles: seq<string>, c: Change)
    ensures c in SelectedChanges(changes, selectedFiles) <==> c in changes && c.fileName in selectedFiles
  {
  }

  /** When the provided files pass validation, each of them is shown among
      the selected changes. */
  lemma ValidatedFilesAllShown(files: seq<string>, changes: seq<Change>, f: string)
    requires ValidateProvidedFileArgs(files, changes).Proceed?
    requires f in files
    ensures exists c :: c in SelectedChanges(changes, files) && c.fileName == f
  {
  }

  /** `le` orders strings totally, as `localeCompare` does. */
  ghost predicate TotalPreorder(le: (string, string) -> bool)
  {
    && (forall x, y :: le(x, y) || le(y, x))
    && (forall x, y, z :: le(x, y) && le(y, z) ==> le(x, z))
  }

  ghost predicate SortedByFileName(s: seq<Change>, le: (string, string) -> bool)
  {
    forall i, j :: 0 <= i < j < |s| ==> le(s[i].fileName, s[j].fileName)
  }

  /** The first `n` entries of `a` are in file-name order. */
  ghost predicate SortedPrefix(a: array<Change>, n: int, le: (string, string) -> bool)
    reads a
  {
    forall i, j :: 0 <= i < j < n && j < a.Length ==> le(a[i].fileName, a[j].fileName)
  }

  /** Exchange two entries of `a`. */
  method Swap(a: array<Change>, i: int, j: int)
    requires 0 <= i < a.Length && 0 <= j < a.Length
    modifies a
    ensures a[..] == old(a[..])[i := old(a[j])][j := old(a[i])]
    ensures multiset(a[..]) == multiset(old(a[..]))
  {
    a[i], a[j] := a[j], a[i];
  }

  /** Move `a[i]` down into the sorted prefix `a[..i]`, so that `a[..i + 1]` is sorted. */
  method InsertIntoPrefix(a: array<Change>, i: int, le: (string, string) -> bool)
    requires TotalPreorder(le)
    requires 0 <= i < a.Length && SortedPrefix(a, i, le)
    modifies a
    ensures SortedPrefix(a, i + 1, le)
    ensures multiset(a[..]) == multiset(old(a[..]))
  {
    var j := i;
    while j > 0 && !le(a[j - 1].fileName, a[j].fileName)
      invariant 0 <= j <= i
      invariant forall k, l :: 0 <= k < l <= i && k != j && l != j ==> le(a[k].fileName, a[l].fileName)
      invariant forall l :: j < l <= i ==> le(a[j].fileName, a[l].fileName)
      invariant multiset(a[..]) == multiset(old(a[..]))
    {
      Swap(a, j - 1, j);
      j := j - 1;
    }
  }

  /** Filtering a sorted list keeps it sorted: after the menu has sorted the
      staged changes in place, the confirmation lists them in file-name order. */
  lemma {:induction false} SelectedChangesSorted(
    changes: seq<Change>, selectedFiles: seq<string>, le: (string, string) -> bool)
    requires SortedByFileName(changes, le)
    ensures SortedByFileName(SelectedChanges(changes, selectedFiles), le)
  {
    if changes != [] {
      var rest := changes[1..];
      assert SortedByFileName(rest, le) by {
        forall i, j | 0 <= i < j < |rest|
          ensures le(rest[i].fileName, rest[j].fileName)
        {
          assert rest[i] == changes[i + 1] && rest[j] == changes[j + 1];
        }
      }
      SelectedChangesSorted(rest, selectedFiles, le);
      var tail := SelectedChanges(rest, selectedFiles);
      forall j | 0 <= j < |tail|
        ensures le(changes[0].fileName, tail[j].fileName)
      {
        var k :| 0 <= k < |rest| && rest[k] == tail[j];
        assert changes[k + 1] == rest[k];
      }
    }
  }

  /** `changes.sort((a, b) => a.fileName.localeCompare(b.fileName))`, in place. */
  method SortByFileName(changes: array<Change>, le: (string, string) -> bool)
    requires TotalPreorder(le)
    modifies changes
    ensures SortedByFileName(changes[..], le)
    ensures multiset(changes[..]) == multiset(old(changes[..]))
  {
    for i := 0 to changes.Length
      invariant SortedPrefix(changes, i, le)
      invariant multiset(changes[..]) == multiset(old(changes[..]))
    {
      InsertIntoPrefix(changes, i, le);
    }
  }

  /** The menu entries for `changes`, one per change, in the same order. */
  function Choices(changes: seq<Change>): (r: seq<Choice>)
    ensures |r| == |changes|
    ensures forall i :: 0 <= i < |r| ==> r[i].name == changes[i] && r[i].value == changes[i].fileName
  {
    seq(|changes|, i requires 0 <= i < |changes| => Choice(changes[i], changes[i].fileName))
  }

  /** The choice-building part of `promptForChangesToUnstage`: it sorts the
      caller's changes in place and offers one choice per change. */
  method PromptForChangesToUnstage(changes: array<Change>, le: (string, string) -> bool)
    returns (choices: seq<Choice>)
    requires TotalPreorder(le)
    modifies changes
    ensures SortedByFileName(changes[..], le)
    ensures multiset(changes[..]) == multiset(old(changes[..]))
    ensures choices == Choices(changes[..])
  {
    SortByFileName(changes, le);
    choices := Choices(changes[..]);
  }

  /** "change" for exactly one file, "changes" otherwise. */
  function ChangeNoun(count: nat): string
  {
    if count == 1 then "change" else "changes"
  }

  /** How `gpp drop` ends. */
  datatype DropOutcome =
    | NoStagedChanges
    | NoChangesSelected
    | Aborted(exitCode: int, invalidFiles: seq<string>)
    | Cancelled
    | NotConfirmed
    | RestoreFailed(exitCode: int)
    | Unstaged(count: nat, noun: string)

  /** `processCommand`'s exit rule: a result ends the process exactly when its
      exit code is defined and not `EXIT.SUCCESS`. A result without an exit
      code (`None`) lets the command go on, like a success. */
  predicate EndsProcess(exitCode: Option<int>)
  {
    exitCode.Some? && exitCode.value != ExitSuccess
  }

  /** None of the first `n` restore calls ends the process. `restoreExit(k, f)`
      is the exit code of the `k`-th `git restore --staged` call of the run
      (counting from 0), made for file `f`, or `None` when the result has none. */
  ghost predicate RestoresSucceed(files: seq<string>, n: int, restoreExit: (nat, string) -> Option<int>)
  {
    forall k :: 0 <= k < n && k < |files| ==> !EndsProcess(restoreExit(k, files[k]))
  }

  /** The unstage loop: one `git restore --staged` per file, in order; the
      first defined exit code that is not `EXIT.SUCCESS` ends the process with
      that code. `attempted` lists the calls made, the failing one included. */
  method UnstageFiles(files: seq<string>, restoreExit: (nat, string) -> Option<int>)
    returns (attempted: seq<string>, exitCode: int)
    ensures |attempted| <= |files| && attempted == files[..|attempted|]
    ensures RestoresSucceed(files, |attempted| - 1, restoreExit)
    ensures exitCode == ExitSuccess <==> RestoresSucceed(files, |files|, restoreExit)
    ensures exitCode == ExitSuccess ==> attempted == files
    ensures exitCode != ExitSuccess ==>
      attempted != [] && restoreExit(|attempted| - 1, attempted[|attempted| - 1]) == Some(exitCode)
  {
    attempted := [];
    for i := 0 to |files|
      invariant attempted == files[..i]
      invariant RestoresSucceed(files, i, restoreExit)
    {
      attempted := attempted + [files[i]];
      var code := restoreExit(i, files[i]);
      if EndsProcess(code) {
        return attempted, code.value;
      }
    }
    return attempted, ExitSuccess;
  }

  /** The tail of `execute`: confirm, unstage each selected file, report. */
  method ConfirmAndUnstage(selectedFiles: seq<string>, confirmed: bool, restoreExit: (nat, string) -> Option<int>)
    returns (outcome: DropOutcome, attempted: seq<string>)
    ensures outcome == NotConfirmed <==> !confirmed
    ensures !confirmed ==> attempted == []
    ensures outcome.Unstaged? || outcome.RestoreFailed? || outcome == NotConfirmed
    // the restores follow the selection order, and all but the last one made succeeded
    ensures |attempted| <= |selectedFiles| && attempted == selectedFiles[..|attempted|]
    ensures RestoresSucceed(selectedFiles, |attempted| - 1, restoreExit)
    // success exactly when no restore ends the process; then every selected file was restored
    ensures outcome.Unstaged? <==> confirmed && RestoresSucceed(selectedFiles, |selectedFiles|, restoreExit)
    ensures outcome.Unstaged? ==>
      attempted == selectedFiles && outcome == Unstaged(|selectedFiles|, ChangeNoun(|selectedFiles|))
    ensures outcome.Unstaged? ==> (outcome.noun == "change" <==> |selectedFiles| == 1)
    // failure exactly when some restore ends the process; it stops there and carries that code
    ensures outcome.RestoreFailed? <==> confirmed && !RestoresSucceed(selectedFiles, |selectedFiles|, restoreExit)
    ensures outcome.RestoreFailed? ==>
      attempted != [] && restoreExit(|attempted| - 1, attempted[|attempted| - 1]) == Some(outcome.exitCode)
      && outcome.exitCode != ExitSuccess
  {
    if !confirmed {
      return NotConfirmed, [];
    }
    var exitCode;
    attempted, exitCode := UnstageFiles(selectedFiles, restoreExit);
    if exitCode != ExitSuccess {
      return RestoreFailed(exitCode), attempted;
    }
    outcome := Unstaged(|selectedFiles|, ChangeNoun(|selectedFiles|));
  }

  /** The files `execute` goes on to confirm and unstage, or `None` when it
      returns or exits before that: nothing staged, a provided file that is not
      staged, a cancelled menu or an empty selection. */
  ghost function Selection(status: string, changes: seq<Change>, files: seq<string>,
                           answer: Option<seq<string>>): Option<seq<string>>
  {
    if status == "" || changes == [] then None
    else if |files| > 0 then
      if ValidateProvidedFileArgs(files, changes).Proceed? then Some(files) else None
    else if answer.Some? && answer.value != [] then Some(answer.value)
    else None
  }

  /** `execute(files)`. `status` is the `git status` output, `parsedChanges`
      what the parser makes of it, `answer` the menu's answer (`None` when the
      user pressed Ctrl+C), `confirmed` the confirmation's answer. */
  method Execute(
    status: string, parsedChanges: array<Change>, files: seq<string>,
    answer: Option<seq<string>>, confirmed: bool,
    le: (string, string) -> bool, restoreExit: (nat, string) -> Option<int>)
    returns (outcome: DropOutcome, offered: seq<Choice>, selectedFiles: seq<string>,
             shown: seq<Change>, attempted: seq<string>)
    requires TotalPreorder(le)
    modifies parsedChanges
    // nothing to unstage, exactly when the status is empty or nothing staged parsed
    ensures outcome == NoStagedChanges <==> status == "" || parsedChanges.Length == 0
    ensures outcome == NoStagedChanges ==> parsedChanges[..] == old(parsedChanges[..])
    // provided files: validated against the staged changes, never sorted
    ensures status != "" && parsedChanges.Length > 0 && |files| > 0 ==>
      && parsedChanges[..] == old(parsedChanges[..]) && offered == []
      && (outcome.Aborted? <==> exists i :: 0 <= i < |files| && !IsStaged(files[i], parsedChanges[..]))
    ensures outcome.Aborted? ==>
      |files| > 0 && outcome == Aborted(ExitFailure, InvalidFiles(files, parsedChanges[..]))
    // no files: the menu sorts the staged changes in place and offers one choice each
    ensures status != "" && parsedChanges.Length > 0 && |files| == 0 ==>
      && SortedByFileName(parsedChanges[..], le)
      && multiset(parsedChanges[..]) == multiset(old(parsedChanges[..]))
      && offered == Choices(parsedChanges[..])
      && SortedByFileName(shown, le)
    ensures outcome == Cancelled <==>
      status != "" && parsedChanges.Length > 0 && |files| == 0 && answer.None?
    ensures outcome == NoChangesSelected <==>
      status != "" && parsedChanges.Length > 0 && |files| == 0 && answer == Some([])
    // past selection: the selected staged changes are shown, then confirmed and unstaged
    ensures Selection(status, old(parsedChanges[..]), files, answer).Some? <==>
      outcome.NotConfirmed? || outcome.RestoreFailed? || outcome.Unstaged?
    ensures Selection(status, old(parsedChanges[..]), files, answer).Some? ==>
      && selectedFiles == Selection(status, old(parsedChanges[..]), files, answer).value
      && shown == SelectedChanges(parsedChanges[..], selectedFiles)
      && (outcome == NotConfirmed <==> !confirmed)
      && (outcome.Unstaged? <==> confirmed && RestoresSucceed(selectedFiles, |selectedFiles|, restoreExit))
    // restores are made only after confirmation, one per selected file in selection order
    ensures attempted != [] ==> confirmed && (outcome.Unstaged? || outcome.RestoreFailed?)
    ensures |attempted| <= |selectedFiles| && attempted == selectedFiles[..|attempted|]
    ensures RestoresSucceed(selectedFiles, |attempted| - 1, restoreExit)
    ensures outcome.Unstaged? ==>
      attempted == selectedFiles && outcome == Unstaged(|selectedFiles|, ChangeNoun(|selectedFiles|))
    ensures outcome.RestoreFailed? ==>
      attempted != [] && restoreExit(|attempted| - 1, attempted[|attempted| - 1]) == Some(outcome.exitCode)
      && outcome.exitCode != ExitSuccess
  {
    offered, selectedFiles, shown, attempted := [], [], [], [];
    if status == "" || parsedChanges.Length == 0 {
      return NoStagedChanges, offered, selectedFiles, shown, attempted;
    }
    if |files| > 0 {
      var validation := ValidateProvidedFileArgs(files, parsedChanges[..]);
      if validation.Abort? {
        return Aborted(validation.exitCode, validation.invalidFiles), offered, selectedFiles, shown, attempted;
      }
      selectedFiles := files;
    } else {
      offered := PromptForChangesToUnstage(parsedChanges, le);
      if answer.None? {
        return Cancelled, offered, selectedFiles, shown, attempted;
      }
      selectedFiles := answer.value;
      if |selectedFiles| == 0 {
        return NoChangesSelected, offered, selectedFiles, shown, attempted;
      }
    }
    shown := SelectedChanges(parsedChanges[..], selectedFiles);
    if |files| == 0 {
      SelectedChangesSorted(parsedChanges[..], selectedFiles, le);
    }
    outcome, attempted := ConfirmAndUnstage(selectedFiles, confirmed, restoreExit);
  }

  // Clients of `Execute`: what its contract alone lets a caller conclude.

  /** A provided staged file, confirmed, every restore succeeding: unstaged. */
  method ProvidedFileUnstaged()
  {
    var a := new Change[1](_ => Change("x", Modified));
    assert a[..] == [Change("x", Modified)];
    assert ValidateProvidedFileArgs(["x"], a[..]).Proceed?;
    var outcome, offered, selected, shown, attempted :=
      Execute("M  x", a, ["x"], None, true, (x: string, y: string) => |x| <= |y|, (k: nat, f: string) => Some(ExitSuccess));
    assert outcome == Unstaged(1, "change") && attempted == ["x"];
  }

  /** The same file picked from the menu. */
  method PickedFileUnstaged()
  {
    var a := new Change[1](_ => Change("x", Modified));
    var outcome, offered, selected, shown, attempted :=
      Execute("M  x", a, [], Some(["x"]), true, (x: string, y: string) => |x| <= |y|, (k: nat, f: string) => Some(ExitSuccess));
    assert outcome == Unstaged(1, "change") && attempted == ["x"];
  }

  /** A restore failing on the first of two files stops the run with its code. */
  method FirstRestoreFails()
  {
    var a := new Change[1](_ => Change("a", Modified));
    var failsOnA := (k: nat, f: string) => if f == "a" then Some(1) else Some(ExitSuccess);
    assert failsOnA(0, ["a", "b"][0]) == Some(1);
    assert !RestoresSucceed(["a", "b"], 2, failsOnA);
    var outcome, offered, selected, shown, attempted :=
      Execute("M  a", a, [], Some(["a", "b"]), true, (x: string, y: string) => |x| <= |y|, failsOnA);
    assert outcome == RestoreFailed(1) && attempted == ["a"];
  }

  /** The same file named twice: the second call fails after the first unstaged it. */
  method RepeatedFileSecondRestoreFails()
  {
    var a := new Change[1](_ => Change("new.txt", Created));
    assert a[..] == [Change("new.txt", Created)];
    assert ValidateProvidedFileArgs(["new.txt", "new.txt"], a[..]).Proceed?;
    var secondFails := (k: nat, f: string) => if k == 0 then Some(ExitSuccess) else Some(ExitFailure);
    assert !RestoresSucceed(["new.txt", "new.txt"], 2, secondFails);
    var outcome, offered, selected, shown, attempted :=
      Execute("A  new.txt", a, ["new.txt", "new.txt"], None, true, (x: string, y: string) => |x| <= |y|, secondFails);
    assert outcome == RestoreFailed(ExitFailure) && attempted == ["new.txt", "new.txt"];
  }

  /** A restore result without an exit code does not stop the run: every
      selected file is still counted as unstaged. */
  method RestoreWithoutExitCodeUnstaged()
  {
    var a := new Change[2](i => if i == 0 then Change("a", Modified) else Change("b", Modified));
    var noCodeForA := (k: nat, f: string) => if f == "a" then None else Some(ExitSuccess);
    assert forall k :: 0 <= k < 2 ==> !EndsProcess(noCodeForA(k, ["a", "b"][k]));
    var outcome, offered, selected, shown, attempted :=
      Execute("M  a\nM  b", a, [], Some(["a", "b"]), true, (x: string, y: string) => |x| <= |y|, noCodeForA);
    assert outcome == Unstaged(2, "changes") && attempted == ["a", "b"];
  }
}
