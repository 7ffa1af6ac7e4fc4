/**
 * The computational part of GitUtil.py: how `run_git_command` turns the exit
 * status and the two output streams of a git process into a result or an
 * exception, how `get_commit_parents` validates the parent list, and how
 * `get_conflict_files` reads unmerged paths out of `git status --porcelain`.
 * The process itself is not modelled: its return code, stdout and stderr are
 * parameters.
 */
module GitUtil {
  import opened Wrappers
  import opened Text

  // ---------------------------------------------------------------------------
  // run_git_command

  /** The message of the exception raised for a failing command. */
  function FailureMessage(command: seq<string>, stderr: string): string {
    "Git command failed: " + Join(command, " ") + "\n" + Strip(stderr)
  }

  /**
   * `run_git_command(command, cwd, combineStdErr)` once the process has exited
   * with `returnCode`: a non-zero code raises with the command and the stripped
   * stderr; otherwise the stripped stdout is returned. `combineStdErr` appends
   * `error_result`, which is still `""` on the success path.
   */
  function RunGitCommand(command: seq<string>, returnCode: int, stdout: string, stderr: string, combineStdErr: bool): (r: Result<string>)
    ensures r.Err? <==> returnCode != 0
    ensures r.Err? ==> r.error.CommandFailed?
    ensures r.Err? ==> Contains(r.error.message, Join(command, " ")) && Contains(r.error.message, Strip(stderr))
    ensures r.Ok? ==> r.value == Strip(stdout)
  {
    var errorResult := "";
    if returnCode != 0 then
      var message := FailureMessage(command, stderr);
      MessageNamesCommand(command, stderr);
      Err(CommandFailed(message))
    else
      var result := Strip(stdout);
      if combineStdErr then
        assert result + errorResult == result;
        Ok(result + errorResult)
      else Ok(result)
  }

  lemma MessageNamesCommand(command: seq<string>, stderr: string)
    ensures Contains(FailureMessage(command, stderr), Join(command, " "))
    ensures Contains(FailureMessage(command, stderr), Strip(stderr))
  {
    var head := "Git command failed: ";
    var joined := Join(command, " ");
    var err := Strip(stderr);
    var message := FailureMessage(command, stderr);
    assert message == head + joined + ("\n" + err);
    ContainsMiddle(head, joined, "\n" + err);
    assert message == (head + joined + "\n") + err + "";
    ContainsMiddle(head + joined + "\n", err, "");
  }

  // ---------------------------------------------------------------------------
  // get_commit_parents

  /** `git show --pretty=format:%P -s <commit>` */
  function ShowParentsCommand(commit: string): seq<string> {
    ["git", "show", "--pretty=format:%P", "-s", commit]
  }

  function NotMergeMessage(commit: string): string {
    "Commit " + commit + " is not a merge commit."
  }

  /**
   * `get_commit_parents(commit)` given the outcome of `git show`: the
   * whitespace-separated parents, which must be at least two.
   */
  function GetCommitParents(commit: string, returnCode: int, stdout: string, stderr: string): (r: Result<seq<string>>)
    ensures r.Ok? <==> returnCode == 0 && |Fields(stdout)| >= 2
    ensures r.Ok? ==> r.value == Fields(stdout) && |r.value| >= 2 && AllTokens(r.value)
    ensures returnCode != 0 ==> r == Err(CommandFailed(FailureMessage(ShowParentsCommand(commit), stderr)))
    ensures returnCode == 0 && |Fields(stdout)| < 2 ==> r == Err(NotAMergeCommit(NotMergeMessage(commit)))
  {
    match RunGitCommand(ShowParentsCommand(commit), returnCode, stdout, stderr, false)
    case Err(e) => Err(e)
    case Ok(output) =>
      FieldsOfStrip(stdout);
      var parents := Fields(output);
      if |parents| < 2 then Err(NotAMergeCommit(NotMergeMessage(commit))) else Ok(parents)
  }

  /** Parents written out separated by spaces, as `%P` prints them, are read back unchanged. */
  lemma ParentsRoundTrip(commit: string, parents: seq<string>, stderr: string)
    requires |parents| >= 2 && AllTokens(parents)
    ensures GetCommitParents(commit, 0, Join(parents, " ") + "\n", stderr) == Ok(parents)
  {
    var out := Join(parents, " ");
    FieldsJoin(parents);
    FieldsIgnoreTrailingSpaces(out, "\n");
  }

  /** A root commit or an ordinary commit (one parent or none) is refused. */
  lemma SingleParentRefused(commit: string, parent: string, stderr: string)
    requires IsToken(parent)
    ensures GetCommitParents(commit, 0, parent, stderr) == Err(NotAMergeCommit(NotMergeMessage(commit)))
  {
    FieldsJoin([parent]);
  }

  // ---------------------------------------------------------------------------
  // get_conflict_files

  /** The lines of the status text that start with `UU `, each without its first three characters, in order. */
  function UnmergedPaths(lines: seq<string>): (files: seq<string>)
    ensures |files| <= |lines|
    ensures forall k :: 0 <= k < |files| ==> exists j :: 0 <= j < |lines| && lines[j] == "UU " + files[k]
  {
    if lines == [] then []
    else
      var rest := UnmergedPaths(lines[1..]);
      assert forall j :: 0 <= j < |lines| - 1 ==> lines[1..][j] == lines[j + 1];
      if StartsWith(lines[0], "UU ") then
        assert lines[0] == "UU " + lines[0][3..];
        [lines[0][3..]] + rest
      else rest
  }

  /** `git status --porcelain` */
  const StatusCommand: seq<string> := ["git", "status", "--porcelain"]

  /** `get_conflict_files()` given the outcome of `git status --porcelain`. */
  function GetConflictFiles(returnCode: int, stdout: string, stderr: string): (r: Result<seq<string>>)
    ensures r.Err? <==> returnCode != 0
    ensures r.Ok? ==> r.value == UnmergedPaths(SplitLines(Strip(stdout)))
  {
    match RunGitCommand(StatusCommand, returnCode, stdout, stderr, false)
    case Err(e) => Err(e)
    case Ok(status) => Ok(UnmergedPaths(SplitLines(status)))
  }

  // ---------------------------------------------------------------------------
  // Porcelain status text, for stating what the parsers recover

  /** One line of `git status --porcelain`: a two-letter state, a space, a path. */
  datatype StatusEntry = StatusEntry(code: string, path: string)

  function StatusLine(e: StatusEntry): string { e.code + " " + e.path }

  function StatusLines(entries: seq<StatusEntry>): (lines: seq<string>)
    ensures |lines| == |entries|
    ensures forall k :: 0 <= k < |entries| ==> lines[k] == StatusLine(entries[k])
  {
    seq(|entries|, k requires 0 <= k < |entries| => StatusLine(entries[k]))
  }

  /** The status text: the entries' lines joined by newlines. */
  function StatusText(entries: seq<StatusEntry>): string {
    Join(StatusLines(entries), "\n")
  }

  /** What `git status --porcelain` prints: every entry's line, each ended by a newline. */
  function PorcelainText(entries: seq<StatusEntry>): (text: string)
    ensures |text| >= |entries|
  {
    if entries == [] then "" else StatusLine(entries[0]) + "\n" + PorcelainText(entries[1..])
  }

  /** The porcelain text is the status text with one newline after it, or nothing at all. */
  lemma {:induction false} PorcelainIsTerminated(entries: seq<StatusEntry>)
    ensures PorcelainText(entries) == if entries == [] then "" else StatusText(entries) + "\n"
  {
    if entries != [] {
      var lines := StatusLines(entries);
      assert lines[1..] == StatusLines(entries[1..]);
      PorcelainIsTerminated(entries[1..]);
    }
  }

  /** The paths of the entries in state `UU` (both sides modified), in order. */
  function Unmerged(entries: seq<StatusEntry>): (paths: seq<string>)
    ensures |paths| <= |entries|
  {
    if entries == [] then []
    else (if entries[0].code == "UU" then [entries[0].path] else []) + Unmerged(entries[1..])
  }

  /** A state is two characters, neither a line break. */
  predicate WellFormedCode(code: string) {
    |code| == 2 && NoLineBreak(code)
  }

  /** A path as `get_conflict_files` can read it back: non-empty, no line break, no trailing whitespace. */
  predicate ReadablePath(path: string) {
    path != [] && NoLineBreak(path) && !IsSpace(path[|path| - 1])
  }

  /**
   * Porcelain output `get_conflict_files` reads back: well-formed states,
   * readable paths, and a first state that is not all whitespace (`strip()`
   * would otherwise eat into the first path).
   */
  predicate ReadableStatus(entries: seq<StatusEntry>) {
    && (forall k :: 0 <= k < |entries| ==> WellFormedCode(entries[k].code) && ReadablePath(entries[k].path))
    && (entries != [] ==> !(IsSpace(entries[0].code[0]) && IsSpace(entries[0].code[1])))
  }

  lemma {:induction false} SplitLinesJoin(lines: seq<string>)
    requires forall k :: 0 <= k < |lines| ==> lines[k] != [] && NoLineBreak(lines[k])
    ensures SplitLines(Join(lines, "\n")) == lines
  {
    if lines != [] {
      var l := lines[0];
      assert FindFirst(l, LineBreak) == |l|;
      if |lines| == 1 {
        assert l[..|l|] == l;
      } else {
        var rest := Join(lines[1..], "\n");
        var s := l + "\n" + rest;
        assert Join(lines, "\n") == s;
        assert forall k :: 0 <= k < |l| ==> s[k] == l[k];
        assert s[|l|] == '\n';
        assert FindFirst(s, LineBreak) == |l|;
        assert s[..|l|] == l && s[|l| + 1..] == rest;
        SplitLinesJoin(lines[1..]);
      }
    }
  }

  lemma {:induction false} UnmergedPathsOfLines(entries: seq<StatusEntry>)
    requires forall k :: 0 <= k < |entries| ==> |entries[k].code| == 2
    ensures UnmergedPaths(StatusLines(entries)) == Unmerged(entries)
  {
    if entries != [] {
      var e := entries[0];
      var line := StatusLine(e);
      assert line[..3] == e.code + " ";
      assert StartsWith(line, "UU ") <==> e.code == "UU" by {
        if StartsWith(line, "UU ") {
          assert e.code == line[..3][..2] == "UU";
        }
      }
      assert line[3..] == e.path;
      assert StatusLines(entries)[1..] == StatusLines(entries[1..]);
      UnmergedPathsOfLines(entries[1..]);
    }
  }

  /** Status text that starts with a non-space character is left unchanged by `strip()`. */
  lemma StatusTextIsStripped(entries: seq<StatusEntry>)
    requires ReadableStatus(entries)
    requires entries != [] ==> !IsSpace(entries[0].code[0])
    ensures Strip(StatusText(entries)) == StatusText(entries)
  {
    var text := StatusText(entries);
    StripSpec(text);
    if entries != [] {
      var lines := StatusLines(entries);
      JoinEnds(lines, "\n");
      var last := StatusLine(entries[|entries| - 1]);
      assert last[|last| - 1] == entries[|entries| - 1].path[|entries[|entries| - 1].path| - 1];
    }
  }

  /** Dropping the first character of a join drops it from the first part. */
  lemma JoinDropFirst(parts: seq<string>, sep: string)
    requires parts != [] && parts[0] != []
    ensures Join(parts, sep)[1..] == Join([parts[0][1..]] + parts[1..], sep)
  {
    var tail := [parts[0][1..]] + parts[1..];
    assert tail[1..] == parts[1..];
  }

  /**
   * When the first state starts with whitespace, `strip()` removes just that
   * character: the first line loses its first character, the rest stay.
   */
  lemma StatusTextStripsLead(entries: seq<StatusEntry>)
    requires ReadableStatus(entries)
    requires entries != [] && IsSpace(entries[0].code[0])
    ensures Strip(StatusText(entries)) == Join([StatusLine(entries[0])[1..]] + StatusLines(entries)[1..], "\n")
  {
    var text := StatusText(entries);
    var lines := StatusLines(entries);
    var e := entries[|entries| - 1];
    JoinEnds(lines, "\n");
    JoinDropFirst(lines, "\n");
    var rest := text[1..];
    var first := StatusLine(entries[0])[1..];
    assert first[0] == entries[0].code[1];
    JoinEnds([first] + lines[1..], "\n");
    assert StatusLine(e)[|StatusLine(e)| - 1] == e.path[|e.path| - 1];
    StripSpec(rest);
  }

  /** A join of non-empty parts begins with the first part's first character and ends with the last part's last character. */
  lemma {:induction false} JoinEnds(parts: seq<string>, sep: string)
    requires parts != [] && forall k :: 0 <= k < |parts| ==> parts[k] != []
    ensures var s := Join(parts, sep);
      s != [] && s[0] == parts[0][0] && s[|s| - 1] == parts[|parts| - 1][|parts[|parts| - 1]| - 1]
  {
    if |parts| > 1 {
      JoinEnds(parts[1..], sep);
    }
  }

  /** Every line of well-formed status text is non-empty and free of line breaks. */
  lemma StatusLinesReadable(entries: seq<StatusEntry>)
    requires forall k :: 0 <= k < |entries| ==> WellFormedCode(entries[k].code) && ReadablePath(entries[k].path)
    ensures forall k :: 0 <= k < |entries| ==> StatusLines(entries)[k] != [] && NoLineBreak(StatusLines(entries)[k])
  {
    forall k | 0 <= k < |entries| ensures NoLineBreak(StatusLine(entries[k])) {
      var e := entries[k];
      var line := StatusLine(e);
      forall j | 0 <= j < |line| ensures !IsLineBreak(line[j]) {
        if j < 2 {
          assert line[j] == e.code[j];
        } else if 2 < j {
          assert line[j] == e.path[j - 3];
        }
      }
    }
  }

  /** A line whose second character is a space is not an unmerged entry. */
  lemma UnmergedSkipsFirst(lines: seq<string>)
    requires lines != [] && |lines[0]| >= 2 && lines[0][1] == ' '
    ensures UnmergedPaths(lines) == UnmergedPaths(lines[1..])
  {
    assert !StartsWith(lines[0], "UU ") by {
      if |lines[0]| >= 3 {
        assert lines[0][..3][1] == ' ';
      }
    }
  }

  /** The status line of an entry with its first character dropped is still free of line breaks. */
  lemma StatusLineTailReadable(e: StatusEntry)
    requires WellFormedCode(e.code) && ReadablePath(e.path)
    ensures var first := StatusLine(e)[1..];
      |first| >= 2 && first[1] == ' ' && NoLineBreak(first)
  {
    var line := StatusLine(e);
    var first := line[1..];
    forall j | 0 <= j < |first| ensures !IsLineBreak(first[j]) {
      if j == 0 {
        assert first[j] == e.code[1];
      } else if 1 < j {
        assert first[j] == e.path[j - 2];
      }
    }
  }

  /** The stripped lines of status text whose first state starts with whitespace name the same unmerged paths. */
  lemma StrippedLeadUnmerged(entries: seq<StatusEntry>)
    requires ReadableStatus(entries)
    requires entries != [] && IsSpace(entries[0].code[0])
    ensures UnmergedPaths(SplitLines(Strip(StatusText(entries)))) == Unmerged(entries)
  {
    var lines := StatusLines(entries);
    var first := StatusLine(entries[0])[1..];
    var stripped := [first] + lines[1..];
    ghost var s := Strip(StatusText(entries));
    StatusTextStripsLead(entries);
    assert s == Join(stripped, "\n");
    StatusLinesReadable(entries);
    StatusLineTailReadable(entries[0]);
    SplitLinesJoin(stripped);
    assert SplitLines(s) == stripped;
    UnmergedSkipsFirst(stripped);
    assert stripped[1..] == StatusLines(entries[1..]);
    UnmergedPathsOfLines(entries[1..]);
  }

  /**
   * `get_conflict_files` recovers, in order, exactly the paths in state `UU`
   * from well-formed porcelain output, newline-terminated as git prints it or
   * not, paths with inner spaces included and states with a leading space
   * (` M`) included.
   */
  lemma ConflictFilesRoundTrip(entries: seq<StatusEntry>, stderr: string)
    requires ReadableStatus(entries)
    ensures GetConflictFiles(0, StatusText(entries), stderr) == Ok(Unmerged(entries))
    ensures GetConflictFiles(0, PorcelainText(entries), stderr) == Ok(Unmerged(entries))
  {
    JoinedConflictFiles(entries, stderr);
    PorcelainIsTerminated(entries);
    if entries != [] {
      StripIgnoresTrailingSpace(StatusText(entries), '\n');
    }
  }

  /** The same for the newline-joined lines without the final newline. */
  lemma JoinedConflictFiles(entries: seq<StatusEntry>, stderr: string)
    requires ReadableStatus(entries)
    ensures GetConflictFiles(0, StatusText(entries), stderr) == Ok(Unmerged(entries))
  {
    var text := StatusText(entries);
    if entries != [] && IsSpace(entries[0].code[0]) {
      StrippedLeadUnmerged(entries);
    } else {
      StatusTextIsStripped(entries);
      StatusLinesReadable(entries);
      SplitLinesJoin(StatusLines(entries));
      UnmergedPathsOfLines(entries);
      assert SplitLines(Strip(text)) == StatusLines(entries);
    }
  }
}
