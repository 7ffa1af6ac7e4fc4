/**
 * extract_merge_conflicts.py: the candidate files named by `git status
 * --porcelain`, the conflict positions of a file's lines (a marker counts
 * wherever it occurs in a line) and the widened slices around them.
 */
module ExtractMergeConflicts {
  import opened Wrappers
  import opened Text
  import opened Regions
  import GitUtil

  // ---------------------------------------------------------------------------
  // get_conflict_candidate_files

  /** What one status line contributes: its second space-separated field, if it starts with `UU` and has one. */
  function Candidate(line: string): (found: seq<string>)
    ensures |found| <= 1
    ensures forall k :: 0 <= k < |found| ==> ' ' !in found[k]
  {
    var parts := Split(line, ' ');
    if StartsWith(line, "UU") && |parts| >= 2 then [parts[1]] else []
  }

  /** The candidates of the status lines, in order. */
  function CandidateFilesOf(lines: seq<string>): (files: seq<string>)
    ensures |files| <= |lines|
    ensures forall k :: 0 <= k < |files| ==> ' ' !in files[k]
  {
    if lines == [] then [] else Candidate(lines[0]) + CandidateFilesOf(lines[1..])
  }

  /** The candidates of the whole status text; empty text names none. */
  function CandidateFiles(status: string): seq<string> {
    if status == "" then [] else CandidateFilesOf(Split(status, '\n'))
  }

  lemma CandidateFilesOfStep(lines: seq<string>, i: nat)
    requires i < |lines|
    ensures CandidateFilesOf(lines[i..]) == Candidate(lines[i]) + CandidateFilesOf(lines[i + 1..])
  {
    assert lines[i..][1..] == lines[i + 1..];
  }

  /** Looks at one status line the way the scan does. */
  method CandidateOf(line: string) returns (found: seq<string>)
    ensures found == Candidate(line)
  {
    found := [];
    if StartsWith(line, "UU") {
      var statusResult := Split(line, ' ');
      if |statusResult| >= 2 {
        found := [statusResult[1]];
      }
    }
  }

  /** Scans the status lines, appending the second field of each `UU` line. */
  method GetConflictCandidateFiles(status: string) returns (files: seq<string>)
    ensures files == CandidateFiles(status)
  {
    files := [];
    if status != "" {
      var lines := Split(status, '\n');
      var i := 0;
      while i < |lines|
        invariant 0 <= i <= |lines|
        invariant files + CandidateFilesOf(lines[i..]) == CandidateFilesOf(lines)
      {
        CandidateFilesOfStep(lines, i);
        var found := CandidateOf(lines[i]);
        files := files + found;
        i := i + 1;
      }
    }
  }

  /**
   * A porcelain entry this scan reads back whole: a two-character state, no
   * newline anywhere, and no space in the path of an entry in state `UU`.
   */
  predicate PlainEntry(e: GitUtil.StatusEntry) {
    |e.code| == 2 && '\n' !in e.code && '\n' !in e.path && (e.code == "UU" ==> ' ' !in e.path)
  }

  /** A path holding neither a space nor a newline. */
  predicate PlainPath(path: string) {
    ' ' !in path && '\n' !in path
  }

  /** A status line is a candidate exactly when its entry is in state `UU`, and then names its path. */
  lemma CandidateOfEntry(e: GitUtil.StatusEntry)
    requires PlainEntry(e)
    ensures Candidate(GitUtil.StatusLine(e)) == if e.code == "UU" then [e.path] else []
  {
    var line := GitUtil.StatusLine(e);
    assert line[..2] == e.code;
    if e.code == "UU" {
      assert line == Join([e.code, e.path], " ");
      SplitJoin([e.code, e.path], ' ');
    }
  }

  lemma {:induction false} CandidateFilesOfLines(entries: seq<GitUtil.StatusEntry>)
    requires forall k :: 0 <= k < |entries| ==> PlainEntry(entries[k])
    ensures CandidateFilesOf(GitUtil.StatusLines(entries)) == GitUtil.Unmerged(entries)
  {
    if entries != [] {
      CandidateOfEntry(entries[0]);
      assert GitUtil.StatusLines(entries)[1..] == GitUtil.StatusLines(entries[1..]);
      CandidateFilesOfLines(entries[1..]);
    }
  }

  /** Status lines of plain entries hold no newline. */
  lemma StatusLinesUnbroken(entries: seq<GitUtil.StatusEntry>)
    requires forall k :: 0 <= k < |entries| ==> PlainEntry(entries[k])
    ensures forall k :: 0 <= k < |entries| ==> '\n' !in GitUtil.StatusLines(entries)[k]
  {
    forall k | 0 <= k < |entries| ensures '\n' !in GitUtil.StatusLines(entries)[k] {
      var e := entries[k];
      assert GitUtil.StatusLines(entries)[k] == e.code + " " + e.path;
    }
  }

  /** The status text of plain entries is not empty and splits at newlines back into its lines. */
  lemma StatusTextSplits(entries: seq<GitUtil.StatusEntry>)
    requires entries != []
    requires forall k :: 0 <= k < |entries| ==> PlainEntry(entries[k])
    ensures GitUtil.StatusText(entries) != ""
    ensures Split(GitUtil.StatusText(entries), '\n') == GitUtil.StatusLines(entries)
  {
    var lines := GitUtil.StatusLines(entries);
    StatusLinesUnbroken(entries);
    SplitJoin(lines, '\n');
    assert |lines[0]| >= 3;
    GitUtil.JoinEnds(lines, "\n");
  }

  /**
   * From porcelain output whose `UU` paths hold no space, newline-terminated as
   * git prints it or not, the candidates are exactly the paths in state `UU`,
   * in order, whatever the other entries' states.
   */
  lemma CandidateFilesRoundTrip(entries: seq<GitUtil.StatusEntry>)
    requires forall k :: 0 <= k < |entries| ==> PlainEntry(entries[k])
    ensures CandidateFiles(GitUtil.StatusText(entries)) == GitUtil.Unmerged(entries)
    ensures CandidateFiles(GitUtil.PorcelainText(entries)) == GitUtil.Unmerged(entries)
  {
    CandidateFilesOfLines(entries);
    GitUtil.PorcelainIsTerminated(entries);
    if entries != [] {
      StatusTextSplits(entries);
      TerminatedTextSplits(entries);
      CandidateFilesOfThenEmpty(GitUtil.StatusLines(entries));
    }
  }

  /** The newline that ends the porcelain text adds one empty line to the split. */
  lemma TerminatedTextSplits(entries: seq<GitUtil.StatusEntry>)
    requires entries != []
    requires forall k :: 0 <= k < |entries| ==> PlainEntry(entries[k])
    ensures Split(GitUtil.StatusText(entries) + "\n", '\n') == GitUtil.StatusLines(entries) + [""]
  {
    var lines := GitUtil.StatusLines(entries);
    StatusLinesUnbroken(entries);
    JoinThenEmpty(lines, "\n");
    SplitJoin(lines + [""], '\n');
  }

  /** The empty last line names no candidate. */
  lemma {:induction false} CandidateFilesOfThenEmpty(lines: seq<string>)
    ensures CandidateFilesOf(lines + [""]) == CandidateFilesOf(lines)
  {
    var more := lines + [""];
    if lines == [] {
      assert Candidate("") == [];
    } else {
      assert more[1..] == lines[1..] + [""];
      CandidateFilesOfThenEmpty(lines[1..]);
    }
  }

  /** A path with a space is cut at it: only the part before the space is reported. */
  lemma PathCutAtSpace(first: string, second: string)
    requires PlainPath(first) && PlainPath(second)
    ensures CandidateFiles("UU " + first + " " + second) == [first]
  {
    var line := "UU " + first + " " + second;
    var parts := ["UU", first, second];
    assert parts[1..] == [first, second] && [first, second][1..] == [second];
    assert Join(parts[1..], " ") == first + " " + second;
    assert line == Join(parts, " ");
    SplitJoin(["UU", first, second], ' ');
    SplitJoin([line], '\n');
    assert line[..2] == "UU";
  }

  /**
   * On porcelain output with plain paths and well-formed states, this scan and
   * `GitUtil.get_conflict_files` name the same files in the same order.
   */
  lemma CandidatesAgreeWithGitUtil(entries: seq<GitUtil.StatusEntry>, stderr: string)
    requires forall k :: 0 <= k < |entries| ==> PlainEntry(entries[k])
    requires GitUtil.ReadableStatus(entries)
    ensures GitUtil.GetConflictFiles(0, GitUtil.StatusText(entries), stderr) == Ok(CandidateFiles(GitUtil.StatusText(entries)))
    ensures GitUtil.GetConflictFiles(0, GitUtil.PorcelainText(entries), stderr) == Ok(CandidateFiles(GitUtil.PorcelainText(entries)))
  {
    CandidateFilesRoundTrip(entries);
    GitUtil.ConflictFilesRoundTrip(entries, stderr);
  }

  // ---------------------------------------------------------------------------
  // extract_conflict_line_position_sections

  const StartMarker := "<<<<<<<"
  const EndMarker := ">>>>>>>"

  /** `start_marker in line` */
  predicate HasStart(line: string) { Contains(line, StartMarker) }

  /** `end_marker in line` */
  predicate HasEnd(line: string) { Contains(line, EndMarker) }

  /**
   * The pairs the scan records from line `i` on, with `start` pending: a line
   * holding a start marker replaces the pending start; otherwise a line holding
   * an end marker records the pending start, if any, and clears it.
   */
  function PositionsFrom(lines: seq<string>, i: nat, start: Option<nat>): (pairs: seq<Pair>)
    requires i <= |lines|
    requires start.Some? ==> start.value < i
    ensures Ordered(pairs, |lines|)
    ensures forall k :: 0 <= k < |pairs| ==> i <= pairs[k].1
    ensures forall k :: 0 <= k < |pairs| ==> i <= pairs[k].0 || (start.Some? && pairs[k].0 == start.value)
    decreases |lines| - i
  {
    if i == |lines| then []
    else if HasStart(lines[i]) then PositionsFrom(lines, i + 1, Some(i))
    else if HasEnd(lines[i]) then
      (if start.Some? then [(start.value, i)] else []) + PositionsFrom(lines, i + 1, None)
    else PositionsFrom(lines, i + 1, start)
  }

  /** The conflict positions of a file's lines, in file order; an empty file has none. */
  function ConflictPositions(lines: seq<string>): (pairs: seq<Pair>)
    ensures Ordered(pairs, |lines|)
    ensures lines == [] ==> pairs == []
  {
    PositionsFrom(lines, 0, None)
  }

  lemma PositionsFromStep(lines: seq<string>, i: nat, start: Option<nat>)
    requires i < |lines| && (start.Some? ==> start.value < i)
    ensures PositionsFrom(lines, i, start) ==
      if HasStart(lines[i]) then PositionsFrom(lines, i + 1, Some(i))
      else if HasEnd(lines[i]) then (if start.Some? then [(start.value, i)] else []) + PositionsFrom(lines, i + 1, None)
      else PositionsFrom(lines, i + 1, start)
  {
  }

  /** Scans the lines once, keeping the pending start line. */
  method ExtractConflictLinePositionSections(lines: seq<string>) returns (sections: seq<Pair>)
    ensures sections == ConflictPositions(lines)
  {
    sections := [];
    if |lines| > 0 {
      var start: Option<nat> := None;
      var i := 0;
      while i < |lines|
        invariant 0 <= i <= |lines|
        invariant start.Some? ==> start.value < i
        invariant sections + PositionsFrom(lines, i, start) == ConflictPositions(lines)
      {
        PositionsFromStep(lines, i, start);
        if HasStart(lines[i]) {
          start := Some(i);
        } else if HasEnd(lines[i]) {
          if start.Some? {
            assert sections + PositionsFrom(lines, i, start) == (sections + [(start.value, i)]) + PositionsFrom(lines, i + 1, None);
            sections := sections + [(start.value, i)];
          } else {
            assert PositionsFrom(lines, i, start) == [] + PositionsFrom(lines, i + 1, None);
          }
          start := None;
        }
        i := i + 1;
      }
    }
  }

  /**
   * Line `s` holds a start marker, line `e` an end marker and no start marker,
   * and no line between them holds either marker.
   */
  predicate Enclosed(lines: seq<string>, s: nat, e: nat) {
    && s < e < |lines|
    && HasStart(lines[s]) && HasEnd(lines[e]) && !HasStart(lines[e])
    && forall k :: s < k < e ==> !HasStart(lines[k]) && !HasEnd(lines[k])
  }

  /** What the scan knows about its pending start when it reaches line `i`. */
  predicate PendingAgrees(lines: seq<string>, i: nat, start: Option<nat>)
    requires i <= |lines|
  {
    start.Some? ==>
      && start.value < i && HasStart(lines[start.value])
      && forall k :: start.value < k < i ==> !HasStart(lines[k]) && !HasEnd(lines[k])
  }

  lemma {:induction false} PositionsFromSound(lines: seq<string>, i: nat, start: Option<nat>, s: nat, e: nat)
    requires i <= |lines| && (start.Some? ==> start.value < i) && PendingAgrees(lines, i, start)
    requires (s, e) in PositionsFrom(lines, i, start)
    ensures Enclosed(lines, s, e)
    decreases |lines| - i
  {
    if i < |lines| {
      if HasStart(lines[i]) {
        PositionsFromSound(lines, i + 1, Some(i), s, e);
      } else if HasEnd(lines[i]) {
        if start.None? || (s, e) != (start.value, i) {
          PositionsFromSound(lines, i + 1, None, s, e);
        }
      } else {
        PositionsFromSound(lines, i + 1, start, s, e);
      }
    }
  }

  lemma {:induction false} PositionsFromComplete(lines: seq<string>, i: nat, start: Option<nat>, s: nat, e: nat)
    requires i <= |lines| && (start.Some? ==> start.value < i)
    requires Enclosed(lines, s, e) && i <= e
    requires i <= s || start == Some(s)
    ensures (s, e) in PositionsFrom(lines, i, start)
    decreases |lines| - i
  {
    if HasStart(lines[i]) {
      if i <= s {
        PositionsFromComplete(lines, i + 1, Some(i), s, e);
      } else {
        assert false;
      }
    } else if HasEnd(lines[i]) {
      if i < s {
        PositionsFromComplete(lines, i + 1, None, s, e);
      } else if i < e {
        assert false;
      }
    } else {
      PositionsFromComplete(lines, i + 1, start, s, e);
    }
  }

  /**
   * The recorded pairs are exactly the enclosed ones: markers count anywhere in
   * a line, a line with both markers counts as a start, and a start on line 0
   * is recorded like any other.
   */
  lemma ConflictPositionsExactly(lines: seq<string>, s: nat, e: nat)
    ensures (s, e) in ConflictPositions(lines) <==> Enclosed(lines, s, e)
  {
    if (s, e) in ConflictPositions(lines) {
      PositionsFromSound(lines, 0, None, s, e);
    }
    if Enclosed(lines, s, e) {
      PositionsFromComplete(lines, 0, None, s, e);
    }
  }

  // ---------------------------------------------------------------------------
  // extract_conflict_sections

  /** One widened slice per recorded pair, in order. */
  method ExtractConflictSections(lines: seq<string>, margin: nat) returns (extracted: seq<seq<string>>)
    ensures |extracted| == |ConflictPositions(lines)|
    ensures forall k :: 0 <= k < |extracted| ==> extracted[k] == Window(lines, ConflictPositions(lines)[k], margin)
  {
    var sections := ExtractConflictLinePositionSections(lines);
    extracted := [];
    var k := 0;
    while k < |sections|
      invariant 0 <= k <= |sections|
      invariant |extracted| == k
      invariant forall j :: 0 <= j < k ==> extracted[j] == Window(lines, sections[j], margin)
    {
      var w := Widen(|lines|, sections[k].0, sections[k].1, margin);
      extracted := extracted + [lines[w.0..w.1]];
      k := k + 1;
    }
  }

  /**
   * Each slice holds its conflict verbatim, from the start-marker line to the
   * end-marker line, at the offset the margin leaves in front; a conflict
   * starting on line 0 is sliced from line 0 whatever the margin.
   */
  lemma SectionHoldsConflict(lines: seq<string>, margin: nat, k: nat)
    requires k < |ConflictPositions(lines)|
    ensures var p := ConflictPositions(lines)[k];
      var lo := Widen(|lines|, p.0, p.1, margin).0;
      var section := Window(lines, p, margin);
      && (p.0 == 0 ==> lo == 0)
      && lo <= p.0 && p.1 - lo < |section|
      && HasStart(section[p.0 - lo]) && HasEnd(section[p.1 - lo])
      && section[p.0 - lo..p.1 + 1 - lo] == lines[p.0..p.1 + 1]
  {
    var p := ConflictPositions(lines)[k];
    assert p in ConflictPositions(lines);
    ConflictPositionsExactly(lines, p.0, p.1);
    WindowHoldsConflict(lines, p, margin);
  }
}
