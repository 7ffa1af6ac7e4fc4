/**
 * merge_conflict_solver.py: finds the conflict sections of a conflicted file
 * (markers need a trailing space here), decides for each whether a resolution
 * diff is about it, and rebuilds the file with every such section replaced by
 * the diff's lines while everything else is copied through.
 */
module ConflictSolver {
  import opened Wrappers
  import opened Text
  import opened Regions

  const OpenMarker := "<<<<<<< "
  const CloseMarker := ">>>>>>> "

  predicate Opens(line: string) { StartsWith(line, OpenMarker) }

  predicate Closes(line: string) { StartsWith(line, CloseMarker) }

  lemma MarkersExclusive(line: string)
    ensures Opens(line) ==> !Closes(line)
  {
    if Opens(line) {
      assert line[0] == '<';
    }
  }

  // ---------------------------------------------------------------------------
  // get_conflicted_sections

  /**
   * The pairs the scan emits from line `i` on, with `start` pending: an opening
   * marker replaces the pending start, a closing marker closes any pending
   * start (line 0 included) and is skipped when none is pending.
   */
  function SectionsFrom(lines: seq<string>, i: nat, start: Option<nat>): (pairs: seq<Pair>)
    requires i <= |lines|
    requires start.Some? ==> start.value < i
    ensures Ordered(pairs, |lines|)
    ensures forall k :: 0 <= k < |pairs| ==> i <= pairs[k].1
    ensures forall k :: 0 <= k < |pairs| ==> i <= pairs[k].0 || (start.Some? && pairs[k].0 == start.value)
    decreases |lines| - i
  {
    if i == |lines| then []
    else if Opens(lines[i]) then SectionsFrom(lines, i + 1, Some(i))
    else if Closes(lines[i]) && start.Some? then [(start.value, i)] + SectionsFrom(lines, i + 1, None)
    else SectionsFrom(lines, i + 1, start)
  }

  function ConflictedSections(lines: seq<string>): (pairs: seq<Pair>)
    ensures Ordered(pairs, |lines|)
  {
    SectionsFrom(lines, 0, None)
  }

  method GetConflictedSections(lines: seq<string>) returns (sections: seq<Pair>)
    ensures sections == ConflictedSections(lines)
  {
    sections := [];
    var start: Option<nat> := None;
    var i := 0;
    while i < |lines|
      invariant 0 <= i <= |lines|
      invariant start.Some? ==> start.value < i
      invariant sections + SectionsFrom(lines, i, start) == ConflictedSections(lines)
    {
      if StartsWith(lines[i], OpenMarker) {
        start := Some(i);
      } else if StartsWith(lines[i], CloseMarker) {
        if start != None {
          sections := sections + [(start.value, i)];
          start := None;
        }
      }
      i := i + 1;
    }
  }

  /** Lines `s` and `e` hold an opening and a closing marker, and no line between them holds either. */
  predicate Marked(lines: seq<string>, s: nat, e: nat) {
    && s < e < |lines|
    && Opens(lines[s]) && Closes(lines[e])
    && forall k :: s < k < e ==> !Opens(lines[k]) && !Closes(lines[k])
  }

  predicate PendingAgrees(lines: seq<string>, i: nat, start: Option<nat>)
    requires i <= |lines|
  {
    start.Some? ==>
      && start.value < i && Opens(lines[start.value])
      && forall k :: start.value < k < i ==> !Opens(lines[k]) && !Closes(lines[k])
  }

  lemma {:induction false} SectionsFromSound(lines: seq<string>, i: nat, start: Option<nat>, s: nat, e: nat)
    requires i <= |lines| && (start.Some? ==> start.value < i) && PendingAgrees(lines, i, start)
    requires (s, e) in SectionsFrom(lines, i, start)
    ensures Marked(lines, s, e)
    decreases |lines| - i
  {
    if i < |lines| {
      if Opens(lines[i]) {
        SectionsFromSound(lines, i + 1, Some(i), s, e);
      } else if Closes(lines[i]) && start.Some? {
        if (s, e) != (start.value, i) {
          SectionsFromSound(lines, i + 1, None, s, e);
        }
      } else {
        SectionsFromSound(lines, i + 1, start, s, e);
      }
    }
  }

  lemma {:induction false} SectionsFromComplete(lines: seq<string>, i: nat, start: Option<nat>, s: nat, e: nat)
    requires i <= |lines| && (start.Some? ==> start.value < i)
    requires Marked(lines, s, e) && i <= e
    requires i <= s || start == Some(s)
    ensures (s, e) in SectionsFrom(lines, i, start)
    decreases |lines| - i
  {
    MarkersExclusive(lines[e]);
    if Opens(lines[i]) {
      if i <= s {
        SectionsFromComplete(lines, i + 1, Some(i), s, e);
      } else {
        assert false;
      }
    } else if Closes(lines[i]) && start.Some? {
      if i == e {
      } else if i < s {
        SectionsFromComplete(lines, i + 1, None, s, e);
      } else {
        assert false;
      }
    } else {
      SectionsFromComplete(lines, i + 1, start, s, e);
    }
  }

  /** The pairs are exactly the marked conflicts, including one that opens on line 0. */
  lemma ConflictedSectionsExactly(lines: seq<string>, s: nat, e: nat)
    ensures (s, e) in ConflictedSections(lines) <==> Marked(lines, s, e)
  {
    if (s, e) in ConflictedSections(lines) {
      SectionsFromSound(lines, 0, None, s, e);
    }
    if Marked(lines, s, e) {
      SectionsFromComplete(lines, 0, None, s, e);
    }
  }

  // ---------------------------------------------------------------------------
  // check_conflicted_section_with_target_diff

  /** The three alternatives of the marker pattern, up to their trailing `\s*\w*`. */
  const OpenRun := "<<<<<<<"
  const Separator := "======="
  const CloseRun := ">>>>>>> "

  /** Drops the whitespace and then the word that follow a marker. */
  function SkipSpaceWord(s: string): (r: string)
    ensures |r| <= |s|
  {
    TrimStart(TrimStart(s, Whitespace), Word)
  }

  /**
   * `re.sub(r'<<<<<<<\s*\w*|=======|>>>>>>> \s*\w*', '', line)`: scanning left
   * to right, each marker is removed together with the whitespace and the word
   * that follow it (only `=======` takes nothing more); other characters are kept.
   */
  function StripMarkers(line: string): (r: string)
    ensures |r| <= |line|
    decreases |line|
  {
    if line == [] then []
    else if line[0] == '<' && StartsWith(line, OpenRun) then StripMarkers(SkipSpaceWord(line[|OpenRun|..]))
    else if line[0] == '=' && StartsWith(line, Separator) then StripMarkers(line[|Separator|..])
    else if line[0] == '>' && StartsWith(line, CloseRun) then StripMarkers(SkipSpaceWord(line[|CloseRun|..]))
    else [line[0]] + StripMarkers(line[1..])
  }

  /** A line that holds none of `<`, `=` and `>` is left as it is. */
  lemma {:induction false} StripMarkersKeepsPlain(line: string)
    requires forall k :: 0 <= k < |line| ==> line[k] != '<' && line[k] != '=' && line[k] != '>'
    ensures StripMarkers(line) == line
    decreases |line|
  {
    if line != [] {
      StripMarkersKeepsPlain(line[1..]);
      assert [line[0]] + line[1..] == line;
    }
  }

  lemma {:induction false} WordRun(w: string, rest: string)
    requires forall k :: 0 <= k < |w| ==> IsWordChar(w[k])
    requires rest != [] && !IsWordChar(rest[0])
    ensures TrimStart(w + rest, Word) == rest
  {
    if w != [] {
      assert (w + rest)[1..] == w[1..] + rest;
      WordRun(w[1..], rest);
    } else {
      assert w + rest == rest;
    }
  }

  /** An opening run is dropped together with what `SkipSpaceWord` takes after it. */
  lemma StripAfterOpenRun(rest: string)
    ensures StripMarkers(OpenRun + rest) == StripMarkers(SkipSpaceWord(rest))
  {
    var line := OpenRun + rest;
    assert line[0] == '<';
    assert line[..|OpenRun|] == OpenRun && line[|OpenRun|..] == rest;
  }

  /** One space, then a non-empty word, then a character that is no word character: the space and the word are skipped. */
  lemma SkipSpaceThenWord(branch: string, eol: char)
    requires branch != [] && forall k :: 0 <= k < |branch| ==> IsWordChar(branch[k])
    requires !IsWordChar(eol)
    ensures SkipSpaceWord([' '] + (branch + [eol])) == [eol]
  {
    var tail := branch + [eol];
    var s := [' '] + tail;
    assert s[1..] == tail;
    assert tail[0] == branch[0] && !IsSpace(tail[0]);
    assert TrimStart(tail, Whitespace) == tail;
    assert TrimStart(s, Whitespace) == tail;
    WordRun(branch, [eol]);
  }

  /** What follows the opening run of a marker line strips to the line end alone. */
  lemma StripBranchName(branch: string, eol: char)
    requires branch != [] && forall k :: 0 <= k < |branch| ==> IsWordChar(branch[k])
    requires !IsWordChar(eol) && eol != '<' && eol != '=' && eol != '>'
    ensures StripMarkers(SkipSpaceWord([' '] + (branch + [eol]))) == [eol]
  {
    SkipSpaceThenWord(branch, eol);
    StripMarkersKeepsPlain([eol]);
  }

  /**
   * A marker line `<<<<<<< branch` with a non-empty branch name, ended by a
   * newline (or any character that is neither a word character nor part of a
   * marker), strips to that last character alone.
   */
  lemma StripOpeningLine(line: string, branch: string, eol: char)
    requires branch != [] && forall k :: 0 <= k < |branch| ==> IsWordChar(branch[k])
    requires !IsWordChar(eol) && eol != '<' && eol != '=' && eol != '>'
    requires line == OpenRun + ([' '] + (branch + [eol]))
    ensures StripMarkers(line) == [eol]
  {
    StripAfterOpenRun([' '] + (branch + [eol]));
    StripBranchName(branch, eol);
  }

  /** The text a diff line is looked up by: without a leading `-`, and without newlines at either end. */
  function DiffKey(line: string): (r: string)
    ensures r != [] ==> r[0] != '\n' && r[|r| - 1] != '\n'
  {
    if StartsWith(line, "-") then StripNewlines(line[1..]) else StripNewlines(line)
  }

  /** The marker-stripped lines of a section, joined with nothing between them. */
  function SectionText(section: seq<string>): string {
    if section == [] then "" else StripMarkers(section[0]) + SectionText(section[1..])
  }

  /** The `any(...)`: does some diff line's key occur in the section's text? */
  predicate MatchesDiff(section: seq<string>, diff: seq<string>) {
    if diff == [] then false
    else Contains(SectionText(section), DiffKey(diff[0])) || MatchesDiff(section, diff[1..])
  }

  /** A section matches exactly when the key of some diff line occurs in its text. */
  lemma {:induction false} MatchesDiffExactly(section: seq<string>, diff: seq<string>)
    ensures MatchesDiff(section, diff) <==> exists k :: 0 <= k < |diff| && Contains(SectionText(section), DiffKey(diff[k]))
  {
    if diff != [] {
      MatchesDiffExactly(section, diff[1..]);
      assert forall k :: 0 < k < |diff| ==> diff[k] == diff[1..][k - 1];
    }
  }

  /** A diff line whose key is empty (a blank line, or a lone `-`) matches every section. */
  lemma BlankDiffLineMatchesAll(section: seq<string>, diff: seq<string>, k: nat)
    requires k < |diff| && DiffKey(diff[k]) == ""
    ensures MatchesDiff(section, diff)
  {
    ContainsEmpty(SectionText(section));
    MatchesDiffExactly(section, diff);
  }

  // ---------------------------------------------------------------------------
  // apply_diff

  /** One resolved line: an added line loses its `+`; every line loses newlines at either end. */
  function ResolvedLine(line: string): (r: string)
    ensures r != [] ==> r[0] != '\n' && r[|r| - 1] != '\n'
  {
    if StartsWith(line, "+") then StripNewlines(line[1..]) else StripNewlines(line)
  }

  /** The diff's lines, resolved one by one. */
  function ResolvedLines(diff: seq<string>): (r: seq<string>)
    ensures |r| == |diff|
    ensures forall k :: 0 <= k < |diff| ==> r[k] == ResolvedLine(diff[k])
  {
    seq(|diff|, k requires 0 <= k < |diff| => ResolvedLine(diff[k]))
  }

  /** Added lines come out without their `+`, removed lines keep their `-`, and context lines stay as they are. */
  lemma ResolvedLineKinds(line: string, text: string)
    requires text == [] || (text[0] != '\n' && text[|text| - 1] != '\n')
    ensures ResolvedLine("+" + text) == text
    ensures ResolvedLine("-" + text) == "-" + text
    ensures !StartsWith(text, "+") ==> ResolvedLine(text) == text
  {
    assert ("+" + text)[..1] == "+" && ("+" + text)[1..] == text;
    var minus := "-" + text;
    assert minus[..1] != "+";
    assert minus[0] != '\n' && minus[|minus| - 1] != '\n';
  }

  /** The body of the loop in `apply_diff`, for one diff line. */
  method ResolveLine(line: string) returns (r: string)
    ensures r == ResolvedLine(line)
  {
    if StartsWith(line, "+") {
      r := StripNewlines(line[1..]);
    } else {
      r := StripNewlines(line);
    }
  }

  /** `apply_diff`: the section is not looked at; one resolved line per diff line, in order. */
  method ApplyDiff(section: seq<string>, diff: seq<string>) returns (resolved: seq<string>)
    ensures resolved == ResolvedLines(diff)
  {
    ghost var all := ResolvedLines(diff);
    resolved := [];
    var i := 0;
    while i < |diff|
      invariant 0 <= i <= |diff| && resolved == all[..i]
    {
      var line := ResolveLine(diff[i]);
      PrefixStep(all, i);
      resolved := resolved + [line];
      i := i + 1;
    }
    TakeAll(all);
  }

  // ---------------------------------------------------------------------------
  // solve_merge_conflict

  /** What a section becomes: the diff's lines when the diff is about it, the section itself otherwise. */
  function Replacement(section: seq<string>, diff: seq<string>): (r: seq<string>)
    ensures !MatchesDiff(section, diff) ==> r == section
    ensures MatchesDiff(section, diff) ==> |r| == |diff| && forall k :: 0 <= k < |diff| ==> r[k] == ResolvedLine(diff[k])
  {
    if MatchesDiff(section, diff) then ResolvedLines(diff) else section
  }

  /** The lines of section `j`, from its opening marker to its closing marker. */
  function SectionLines<T>(lines: seq<T>, pairs: seq<Pair>, j: nat): seq<T>
    requires Ordered(pairs, |lines|) && j < |pairs|
  {
    lines[pairs[j].0..pairs[j].1 + 1]
  }

  /**
   * The file rebuilt from section `k` on, `last` being the line after the
   * previous section: the lines up to each section, the section's replacement
   * `reps[j]`, and after the last section the rest of the file.
   */
  function Splice<T>(lines: seq<T>, pairs: seq<Pair>, reps: seq<seq<T>>, k: nat, last: nat): seq<T>
    requires Ordered(pairs, |lines|) && |reps| == |pairs| && k <= |pairs| && last <= |lines|
    requires k < |pairs| ==> last <= pairs[k].0
    decreases |pairs| - k
  {
    if k == |pairs| then lines[last..]
    else
      var next := Min(pairs[k].1 + 1, |lines|);
      lines[last..pairs[k].0] + reps[k] + Splice(lines, pairs, reps, k + 1, next)
  }

  lemma SpliceStep<T>(lines: seq<T>, pairs: seq<Pair>, reps: seq<seq<T>>, k: nat, last: nat)
    requires Ordered(pairs, |lines|) && |reps| == |pairs| && k < |pairs| && last <= pairs[k].0
    ensures pairs[k].1 + 1 <= |lines| && (k + 1 < |pairs| ==> pairs[k].1 + 1 <= pairs[k + 1].0)
    ensures Splice(lines, pairs, reps, k, last)
      == lines[last..pairs[k].0] + reps[k] + Splice(lines, pairs, reps, k + 1, pairs[k].1 + 1)
  {
  }

  /** Replacing every section by itself gives the file back: the slices join up. */
  lemma {:induction false} SpliceIdentity<T>(lines: seq<T>, pairs: seq<Pair>, reps: seq<seq<T>>, k: nat, last: nat)
    requires Ordered(pairs, |lines|) && |reps| == |pairs| && k <= |pairs| && last <= |lines|
    requires k < |pairs| ==> last <= pairs[k].0
    requires forall j :: k <= j < |pairs| ==> reps[j] == SectionLines(lines, pairs, j)
    ensures Splice(lines, pairs, reps, k, last) == lines[last..]
    decreases |pairs| - k
  {
    if k < |pairs| {
      var s, e := pairs[k].0, pairs[k].1;
      SpliceStep(lines, pairs, reps, k, last);
      SpliceIdentity(lines, pairs, reps, k + 1, e + 1);
      assert lines[last..] == lines[last..s] + lines[s..e + 1] + lines[e + 1..];
    }
  }

  /** `r` ends with `t`. */
  predicate EndsWithSeq<T(==)>(r: seq<T>, t: seq<T>) {
    |t| <= |r| && r[|r| - |t|..] == t
  }

  lemma EndsWithAppend<T>(a: seq<T>, b: seq<T>, t: seq<T>)
    requires EndsWithSeq(b, t)
    ensures EndsWithSeq(a + b, t)
  {
    assert (a + b)[|a + b| - |t|..] == b[|b| - |t|..];
  }

  /** Whatever the replacements, the rebuilt file from any section on ends with the lines after the last section. */
  lemma {:induction false} SpliceKeepsTail<T>(lines: seq<T>, pairs: seq<Pair>, reps: seq<seq<T>>, k: nat, last: nat)
    requires Ordered(pairs, |lines|) && |reps| == |pairs| && k < |pairs| && last <= pairs[k].0
    ensures EndsWithSeq(Splice(lines, pairs, reps, k, last), lines[pairs[|pairs| - 1].1 + 1..])
    decreases |pairs| - k
  {
    SpliceStep(lines, pairs, reps, k, last);
    var next := pairs[k].1 + 1;
    var front := lines[last..pairs[k].0] + reps[k];
    var rest := Splice(lines, pairs, reps, k + 1, next);
    var tail := lines[pairs[|pairs| - 1].1 + 1..];
    if k + 1 < |pairs| {
      SpliceKeepsTail(lines, pairs, reps, k + 1, next);
    } else {
      assert rest == tail;
      assert rest[|rest| - |tail|..] == tail;
    }
    EndsWithAppend(front, rest, tail);
    assert Splice(lines, pairs, reps, k, last) == front + rest;
  }

  /** Whatever the replacements, the rebuilt file starts with the lines before the first section and ends with those after the last one. */
  lemma SpliceKeepsEnds<T>(lines: seq<T>, pairs: seq<Pair>, reps: seq<seq<T>>)
    requires Ordered(pairs, |lines|) && |reps| == |pairs| && pairs != []
    ensures var r := Splice(lines, pairs, reps, 0, 0);
      var head := lines[..pairs[0].0];
      && |head| <= |r| && r[..|head|] == head
      && EndsWithSeq(r, lines[pairs[|pairs| - 1].1 + 1..])
  {
    SpliceKeepsTail(lines, pairs, reps, 0, 0);
    SpliceStep(lines, pairs, reps, 0, 0);
    var head := lines[..pairs[0].0];
    assert lines[0..pairs[0].0] == head;
    var rest := reps[0] + Splice(lines, pairs, reps, 1, pairs[0].1 + 1);
    assert Splice(lines, pairs, reps, 0, 0) == head + rest;
  }

  /** With one section, the rebuilt file is the lines before it, its replacement and the lines after it. */
  lemma SpliceOne<T>(lines: seq<T>, pairs: seq<Pair>, reps: seq<seq<T>>)
    requires Ordered(pairs, |lines|) && |reps| == |pairs| == 1
    ensures Splice(lines, pairs, reps, 0, 0) == lines[..pairs[0].0] + reps[0] + lines[pairs[0].1 + 1..]
  {
    SpliceStep(lines, pairs, reps, 0, 0);
    assert lines[0..pairs[0].0] == lines[..pairs[0].0];
  }

  /** `f` applied to the lines of each section from `j` on, in order. */
  function MapSections<T>(lines: seq<T>, pairs: seq<Pair>, f: seq<T> -> seq<T>, j: nat): (reps: seq<seq<T>>)
    requires Ordered(pairs, |lines|) && j <= |pairs|
    ensures |reps| == |pairs| - j
    decreases |pairs| - j
  {
    if j == |pairs| then [] else [f(SectionLines(lines, pairs, j))] + MapSections(lines, pairs, f, j + 1)
  }

  lemma {:induction false} MapSectionsAt<T>(lines: seq<T>, pairs: seq<Pair>, f: seq<T> -> seq<T>, j: nat, i: nat)
    requires Ordered(pairs, |lines|) && j <= i < |pairs|
    ensures MapSections(lines, pairs, f, j)[i - j] == f(SectionLines(lines, pairs, i))
    decreases i - j
  {
    if j < i {
      MapSectionsAt(lines, pairs, f, j + 1, i);
    }
  }

  /** `Replacement` for a fixed diff, as a function of the section. */
  function Resolver(diff: seq<string>): seq<string> -> seq<string> {
    section => Replacement(section, diff)
  }

  /** The replacement of every section. */
  function Replacements(lines: seq<string>, pairs: seq<Pair>, diff: seq<string>): (reps: seq<seq<string>>)
    requires Ordered(pairs, |lines|)
    ensures |reps| == |pairs|
  {
    MapSections(lines, pairs, Resolver(diff), 0)
  }

  /** Entry `i` of the replacements is the replacement of section `i`. */
  lemma ReplacementsAt(lines: seq<string>, pairs: seq<Pair>, diff: seq<string>, i: nat)
    requires Ordered(pairs, |lines|) && i < |pairs|
    ensures Replacements(lines, pairs, diff)[i] == Replacement(SectionLines(lines, pairs, i), diff)
  {
    MapSectionsAt(lines, pairs, Resolver(diff), 0, i);
  }

  /** The solved file; a file without conflict sections is returned as it is. */
  function Solve(lines: seq<string>, diff: seq<string>): (r: seq<string>)
    ensures ConflictedSections(lines) == [] ==> r == lines
  {
    var pairs := ConflictedSections(lines);
    if pairs != [] then Splice(lines, pairs, Replacements(lines, pairs, diff), 0, 0) else lines
  }

  /** The check and the rewrite of one section, as the loop body does them. */
  method ReplaceSection(section: seq<string>, diff: seq<string>) returns (out: seq<string>)
    ensures out == Replacement(section, diff)
  {
    if MatchesDiff(section, diff) {
      out := ApplyDiff(section, diff);
    } else {
      out := section;
    }
  }

  lemma AppendThree<T>(a: seq<T>, b: seq<T>, c: seq<T>, d: seq<T>)
    ensures a + (b + c + d) == a + (b + c) + d
  {
  }

  /** One turn of the rebuilding loop: the lines before section `k` and its replacement move from the rest to the output. */
  lemma SpliceAdvance<T>(lines: seq<T>, pairs: seq<Pair>, f: seq<T> -> seq<T>, k: nat, last: nat, done: seq<T>, chunk: seq<T>, total: seq<T>)
    requires Ordered(pairs, |lines|) && k < |pairs| && last <= pairs[k].0
    requires done + Splice(lines, pairs, MapSections(lines, pairs, f, 0), k, last) == total
    requires chunk == lines[last..pairs[k].0] + f(lines[pairs[k].0..pairs[k].1 + 1])
    ensures pairs[k].1 + 1 <= |lines| && (k + 1 < |pairs| ==> pairs[k].1 + 1 <= pairs[k + 1].0)
    ensures done + chunk + Splice(lines, pairs, MapSections(lines, pairs, f, 0), k + 1, pairs[k].1 + 1) == total
  {
    var reps := MapSections(lines, pairs, f, 0);
    SpliceStep(lines, pairs, reps, k, last);
    MapSectionsAt(lines, pairs, f, 0, k);
    AppendThree(done, lines[last..pairs[k].0], reps[k], Splice(lines, pairs, reps, k + 1, pairs[k].1 + 1));
  }

  /**
   * One turn of the loop of `solve_merge_conflict`: the lines from `last` up to
   * section `k`, then the section's replacement; and the line after the section.
   */
  method ReplaceNext(lines: seq<string>, pairs: seq<Pair>, diff: seq<string>, k: nat, last: nat) returns (chunk: seq<string>, next: nat)
    requires Ordered(pairs, |lines|) && k < |pairs| && last <= pairs[k].0
    ensures next == pairs[k].1 + 1 <= |lines|
    ensures chunk == lines[last..pairs[k].0] + Resolver(diff)(lines[pairs[k].0..pairs[k].1 + 1])
  {
    var s, e := pairs[k].0, pairs[k].1;
    var before := lines[last..s];
    next := Min(e + 1, |lines|);
    assert next == e + 1;
    var section := lines[s..next];
    var replacement := ReplaceSection(section, diff);
    chunk := before + replacement;
  }

  /** The loop of `solve_merge_conflict` over the sections, and the lines after the last one. */
  method ReplaceSections(lines: seq<string>, pairs: seq<Pair>, diff: seq<string>) returns (resolved: seq<string>)
    requires Ordered(pairs, |lines|)
    ensures resolved == Splice(lines, pairs, Replacements(lines, pairs, diff), 0, 0)
  {
    ghost var f := Resolver(diff);
    ghost var reps := MapSections(lines, pairs, f, 0);
    ghost var total := Splice(lines, pairs, reps, 0, 0);
    resolved := [];
    var last: nat := 0;
    var k: nat := 0;
    while k < |pairs|
      invariant k <= |pairs| && last <= |lines|
      invariant k < |pairs| ==> last <= pairs[k].0
      invariant resolved + Splice(lines, pairs, reps, k, last) == total
    {
      var chunk, next := ReplaceNext(lines, pairs, diff, k, last);
      SpliceAdvance(lines, pairs, f, k, last, resolved, chunk, total);
      resolved := resolved + chunk;
      last := next;
      k := k + 1;
    }
    resolved := resolved + lines[last..];
  }

  /** `solve_merge_conflict` after both files are read into lines. */
  method SolveMergeConflict(lines: seq<string>, diff: seq<string>) returns (resolved: seq<string>)
    ensures resolved == Solve(lines, diff)
  {
    var pairs := GetConflictedSections(lines);
    if pairs != [] {
      resolved := ReplaceSections(lines, pairs, diff);
    } else {
      resolved := lines;
    }
  }

  /** A diff about none of the sections leaves the file unchanged. */
  lemma UnmatchedDiffChangesNothing(lines: seq<string>, diff: seq<string>)
    requires forall p :: p in ConflictedSections(lines) ==> !MatchesDiff(lines[p.0..p.1 + 1], diff)
    ensures Solve(lines, diff) == lines
  {
    var pairs := ConflictedSections(lines);
    if pairs != [] {
      var reps := Replacements(lines, pairs, diff);
      forall j | 0 <= j < |pairs| ensures reps[j] == SectionLines(lines, pairs, j) {
        assert pairs[j] in pairs;
        ReplacementsAt(lines, pairs, diff, j);
      }
      SpliceIdentity(lines, pairs, reps, 0, 0);
    }
  }

  /** An empty diff is about no section, so it leaves the file unchanged. */
  lemma EmptyDiffChangesNothing(lines: seq<string>)
    ensures Solve(lines, []) == lines
  {
    UnmatchedDiffChangesNothing(lines, []);
  }

  /** With one section, the rebuilt file is the lines before it, the section mapped by `f`, and the lines after it. */
  lemma SpliceOneMapped<T>(lines: seq<T>, pairs: seq<Pair>, f: seq<T> -> seq<T>)
    requires Ordered(pairs, |lines|) && |pairs| == 1
    ensures Splice(lines, pairs, MapSections(lines, pairs, f, 0), 0, 0)
      == lines[..pairs[0].0] + f(lines[pairs[0].0..pairs[0].1 + 1]) + lines[pairs[0].1 + 1..]
  {
    MapSectionsAt(lines, pairs, f, 0, 0);
    SpliceOne(lines, pairs, MapSections(lines, pairs, f, 0));
  }

  /**
   * With exactly one conflict section, the output is the lines before it, its
   * replacement, and the lines after it.
   */
  lemma SolveOneSection(lines: seq<string>, diff: seq<string>)
    requires |ConflictedSections(lines)| == 1
    ensures var p := ConflictedSections(lines)[0];
      Solve(lines, diff) == lines[..p.0] + Replacement(lines[p.0..p.1 + 1], diff) + lines[p.1 + 1..]
  {
    SpliceOneMapped(lines, ConflictedSections(lines), Resolver(diff));
  }

  /** The text before the first conflict section and after the last one comes through verbatim, whatever the diff. */
  lemma SolveKeepsEnds(lines: seq<string>, diff: seq<string>)
    requires ConflictedSections(lines) != []
    ensures var pairs := ConflictedSections(lines);
      var r := Solve(lines, diff);
      var head := lines[..pairs[0].0];
      && |head| <= |r| && r[..|head|] == head
      && EndsWithSeq(r, lines[pairs[|pairs| - 1].1 + 1..])
  {
    var pairs := ConflictedSections(lines);
    var reps := Replacements(lines, pairs, diff);
    assert Solve(lines, diff) == Splice(lines, pairs, reps, 0, 0);
    SpliceKeepsEnds(lines, pairs, reps);
  }
}
