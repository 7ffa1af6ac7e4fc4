/**
 * The line-oriented parts of merge_conflict_extractor_with_format_patch.py:
 * reading the commit id of a patch, listing the files `git am`/`git apply`
 * reports as conflicted, cutting the conflict sections (with their margins)
 * out of a conflicted file, and rendering the fenced dataset blocks.
 * merge_conflict_extractor.py holds identical copies of the margin helper and
 * of the section scanner; the members here model both copies.
 */
module FormatPatchExtractor {
  import opened Wrappers
  import opened Text
  import opened Regions

  const FromPrefix := "From "
  const ConflictPrefix := "CONFLICT (content): Merge conflict in "
  const StartMarker := "<<<<<<<"
  const EndMarker := ">>>>>>>"

  // ---------------------------------------------------------------------------
  // get_commit_id

  /** The commit id a patch names: the second field of its first `From ` line; nothing when no line starts with `From `. */
  function CommitIdOf(lines: seq<string>): Result<Option<string>> {
    var k := FirstLineWith(lines, FromPrefix);
    if k == |lines| then Ok(None)
    else
      var fields := Fields(lines[k]);
      if |fields| < 2 then Err(IndexOutOfRange) else Ok(Some(Strip(fields[1])))
  }

  /** Scans the patch's lines and stops at the first `From ` line. */
  method GetCommitId(lines: seq<string>) returns (r: Result<Option<string>>)
    ensures r == CommitIdOf(lines)
  {
    r := Ok(None);
    var i := 0;
    while i < |lines|
      invariant 0 <= i <= |lines|
      invariant forall k :: 0 <= k < i ==> !StartsWith(lines[k], FromPrefix)
    {
      if StartsWith(lines[i], FromPrefix) {
        var fields := Fields(lines[i]);
        if |fields| < 2 {
          r := Err(IndexOutOfRange);
        } else {
          r := Ok(Some(Strip(fields[1])));
        }
        break;
      }
      i := i + 1;
    }
  }

  /**
   * No id exactly when no line starts with `From `; a found id is the second
   * whitespace-separated field of the first such line, so it is non-empty and
   * holds no whitespace (the `.strip()` changes nothing).
   */
  lemma CommitIdIsSecondField(lines: seq<string>)
    ensures CommitIdOf(lines) == Ok(None) <==> forall k :: 0 <= k < |lines| ==> !StartsWith(lines[k], FromPrefix)
    ensures CommitIdOf(lines).Ok? && CommitIdOf(lines).value.Some? ==>
      var k := FirstLineWith(lines, FromPrefix);
      var id := CommitIdOf(lines).value.value;
      k < |lines| && |Fields(lines[k])| >= 2 && id == Fields(lines[k])[1] && id != [] && NoSpace(id)
  {
    var k := FirstLineWith(lines, FromPrefix);
    if k < |lines| {
      var fields := Fields(lines[k]);
      if |fields| >= 2 {
        StripSpec(fields[1]);
      }
    }
  }

  // ---------------------------------------------------------------------------
  // get_conflict_files

  /**
   * What one line of the tool's output contributes: for a line that, stripped,
   * starts with the conflict prefix, the text after its last space. That text
   * is never empty, so the emptiness test in the source never drops a line.
   */
  function ConflictFileOf(line: string): (r: Option<string>)
    ensures r.Some? <==> StartsWith(Strip(line), ConflictPrefix)
    ensures r.Some? ==> r.value != [] && ' ' !in r.value && EndsWith(Strip(line), r.value)
  {
    var t := Strip(line);
    StripSpec(line);
    if StartsWith(t, ConflictPrefix) then
      assert t[|ConflictPrefix| - 1] == ' ';
      var name := t[RFind(t, ' ') + 1..];
      if name != [] then Some(name) else None
    else None
  }

  /** The names the report lines contribute, in order. */
  function ConflictFilesOf(lines: seq<string>): (files: seq<string>)
    ensures |files| <= |lines|
    ensures forall k :: 0 <= k < |files| ==> files[k] != [] && ' ' !in files[k]
  {
    if lines == [] then []
    else
      ConflictFilesOf(lines[..|lines| - 1]) + Listed(ConflictFileOf(lines[|lines| - 1]))
  }

  /** The names an optional name contributes to a list. */
  function Listed(name: Option<string>): seq<string> {
    if name.Some? then [name.value] else []
  }

  lemma ConflictFilesOfStep(lines: seq<string>, i: nat)
    requires i < |lines|
    ensures ConflictFilesOf(lines[..i + 1]) == ConflictFilesOf(lines[..i]) + Listed(ConflictFileOf(lines[i]))
  {
    PrefixStep(lines, i);
  }

  /** `result` is `None` when both `git am` and `git apply` timed out; otherwise its standard output. */
  method GetConflictFiles(result: Option<string>) returns (files: seq<string>)
    ensures files == if result.None? then [] else ConflictFilesOf(Split(result.value, '\n'))
  {
    files := [];
    if result.Some? {
      var lines := Split(result.value, '\n');
      var i := 0;
      while i < |lines|
        invariant 0 <= i <= |lines|
        invariant files == ConflictFilesOf(lines[..i])
      {
        var filename := ConflictFileOf(lines[i]);
        if filename.Some? {
          files := files + [filename.value];
        }
        ConflictFilesOfStep(lines, i);
        i := i + 1;
      }
      TakeAll(lines);
    }
  }

  /** The report lines the tool prints for the conflicted files `files`. */
  function ReportLines(files: seq<string>): (lines: seq<string>)
    ensures |lines| == |files|
    ensures forall k :: 0 <= k < |files| ==> lines[k] == ConflictPrefix + files[k]
  {
    if files == [] then [] else ReportLines(files[..|files| - 1]) + [ConflictPrefix + files[|files| - 1]]
  }

  /** A line made of a prefix ending in a space and a spaceless name: stripping keeps it and its last space ends the prefix. */
  lemma PrefixedName(p: string, f: string)
    requires p != [] && !IsSpace(p[0]) && p[|p| - 1] == ' '
    requires f != [] && NoSpace(f)
    ensures Strip(p + f) == p + f && StartsWith(p + f, p)
    ensures RFind(p + f, ' ') == |p| - 1 && (p + f)[|p|..] == f
  {
    var line := p + f;
    assert line[|line| - 1] == f[|f| - 1];
    StripSpec(line);
    assert line[..|p|] == p;
    var i := RFind(line, ' ');
    assert line[|p| - 1] == ' ';
    assert forall k :: |p| <= k < |line| ==> line[k] == f[k - |p|];
  }

  /** A report line for one name yields exactly that name. */
  lemma ConflictFileOfReportLine(f: string)
    requires f != [] && NoSpace(f)
    ensures ConflictFileOf(ConflictPrefix + f) == Some(f)
  {
    assert ConflictPrefix[0] == 'C' && ConflictPrefix[|ConflictPrefix| - 1] == ' ';
    PrefixedName(ConflictPrefix, f);
  }

  lemma ConflictFilesOfSnoc(lines: seq<string>, line: string)
    ensures ConflictFilesOf(lines + [line]) == ConflictFilesOf(lines) + Listed(ConflictFileOf(line))
  {
    assert (lines + [line])[..|lines|] == lines;
  }

  lemma {:induction false} ConflictFilesOfReportLines(files: seq<string>)
    requires AllTokens(files)
    ensures ConflictFilesOf(ReportLines(files)) == files
  {
    if files != [] {
      var n := |files| - 1;
      ConflictFilesOfSnoc(ReportLines(files[..n]), ConflictPrefix + files[n]);
      ConflictFilesOfReportLines(files[..n]);
      ConflictFileOfReportLine(files[n]);
      FrontLast(files);
    }
  }

  lemma ReportLinesHaveNoNewline(files: seq<string>)
    requires AllTokens(files)
    ensures forall k :: 0 <= k < |files| ==> '\n' !in ReportLines(files)[k]
  {
    var lines := ReportLines(files);
    assert '\n' !in ConflictPrefix;
    forall k | 0 <= k < |lines| ensures '\n' !in lines[k] {
      assert lines[k] == ConflictPrefix + files[k];
      assert IsSpace('\n');
    }
  }

  /** With no conflicted file the tool's output is empty, which splits into one empty line. */
  lemma EmptyReport()
    ensures ConflictFilesOf(Split(Join([], ['\n']), '\n')) == []
  {
    assert Split("", '\n') == [""];
    assert ConflictFileOf("") == None;
  }

  /**
   * Round trip: for any list of non-empty, whitespace-free names, the output
   * the tool prints for them parses back to exactly that list, in order.
   */
  lemma ConflictFilesRoundTrip(files: seq<string>)
    requires AllTokens(files)
    ensures ConflictFilesOf(Split(Join(ReportLines(files), ['\n']), '\n')) == files
  {
    if files == [] {
      EmptyReport();
    } else {
      var lines := ReportLines(files);
      ReportLinesHaveNoNewline(files);
      SplitJoin(lines, '\n');
      ConflictFilesOfReportLines(files);
    }
  }

  // ---------------------------------------------------------------------------
  // get_conflict_sections

  predicate IsStart(line: string) { StartsWith(line, StartMarker) }

  predicate IsEnd(line: string) { StartsWith(line, EndMarker) }

  lemma MarkersExclusive(line: string)
    ensures IsStart(line) ==> !IsEnd(line)
  {
    if IsStart(line) {
      assert line[0] == '<';
    }
  }

  /** Python's truth value of the pending start: `None` and line 0 are both false. */
  predicate Pending(start: Option<nat>) { start.Some? && start.value != 0 }

  /**
   * The pairs the scan emits from line `i` on, with `start` pending: a start
   * marker replaces the pending start, an end marker closes a pending start
   * that is truthy, and any other end marker is skipped.
   */
  function PairsFrom(content: seq<string>, i: nat, start: Option<nat>): (pairs: seq<Pair>)
    requires i <= |content|
    requires start.Some? ==> start.value < i
    ensures Ordered(pairs, |content|)
    ensures forall k :: 0 <= k < |pairs| ==> 0 < pairs[k].0 && i <= pairs[k].1
    ensures forall k :: 0 <= k < |pairs| ==> i <= pairs[k].0 || (start.Some? && pairs[k].0 == start.value)
    decreases |content| - i
  {
    if i == |content| then []
    else if IsStart(content[i]) then PairsFrom(content, i + 1, Some(i))
    else if Pending(start) && IsEnd(content[i]) then [(start.value, i)] + PairsFrom(content, i + 1, None)
    else PairsFrom(content, i + 1, start)
  }

  /** The conflict pairs of a file, in file order; none starts on line 0. */
  function ConflictPairs(content: seq<string>): (pairs: seq<Pair>)
    ensures Ordered(pairs, |content|)
    ensures forall k :: 0 <= k < |pairs| ==> 0 < pairs[k].0
  {
    PairsFrom(content, 0, None)
  }

  /** Lines `s` and `e` hold a start and an end marker, and no line between them holds either. */
  predicate MarkedConflict(content: seq<string>, s: nat, e: nat) {
    && s < e < |content|
    && IsStart(content[s]) && IsEnd(content[e])
    && forall k :: s < k < e ==> !IsStart(content[k]) && !IsEnd(content[k])
  }

  /** What the scan knows about its pending start when it reaches line `i`. */
  predicate PendingAgrees(content: seq<string>, i: nat, start: Option<nat>)
    requires i <= |content|
  {
    start.Some? ==>
      && start.value < i && IsStart(content[start.value])
      && forall k :: start.value < k < i ==> !IsStart(content[k]) && (start.value != 0 ==> !IsEnd(content[k]))
  }

  lemma {:induction false} PairsFromSound(content: seq<string>, i: nat, start: Option<nat>, s: nat, e: nat)
    requires i <= |content| && (start.Some? ==> start.value < i) && PendingAgrees(content, i, start)
    requires (s, e) in PairsFrom(content, i, start)
    ensures MarkedConflict(content, s, e) && s != 0
    decreases |content| - i
  {
    if i < |content| {
      if IsStart(content[i]) {
        PairsFromSound(content, i + 1, Some(i), s, e);
      } else if Pending(start) && IsEnd(content[i]) {
        if (s, e) != (start.value, i) {
          PairsFromSound(content, i + 1, None, s, e);
        }
      } else {
        PairsFromSound(content, i + 1, start, s, e);
      }
    }
  }

  lemma {:induction false} PairsFromComplete(content: seq<string>, i: nat, start: Option<nat>, s: nat, e: nat)
    requires i <= |content| && (start.Some? ==> start.value < i)
    requires MarkedConflict(content, s, e) && s != 0 && i <= e
    requires i <= s || start == Some(s)
    ensures (s, e) in PairsFrom(content, i, start)
    decreases |content| - i
  {
    MarkersExclusive(content[e]);
    if IsStart(content[i]) {
      if i <= s {
        PairsFromComplete(content, i + 1, Some(i), s, e);
      } else {
        assert false;
      }
    } else if Pending(start) && IsEnd(content[i]) {
      if i == e {
      } else if i < s {
        PairsFromComplete(content, i + 1, None, s, e);
      } else {
        assert false;
      }
    } else {
      PairsFromComplete(content, i + 1, start, s, e);
    }
  }

  /**
   * The pairs the scan emits are exactly the marked conflicts whose start
   * marker is not on line 0: a start on line 0 leaves the pending start falsy,
   * so its end marker is skipped.
   */
  lemma ConflictPairsExactly(content: seq<string>, s: nat, e: nat)
    ensures (s, e) in ConflictPairs(content) <==> MarkedConflict(content, s, e) && s != 0
  {
    if (s, e) in ConflictPairs(content) {
      PairsFromSound(content, 0, None, s, e);
    }
    if MarkedConflict(content, s, e) && s != 0 {
      PairsFromComplete(content, 0, None, s, e);
    }
  }

  /** A conflict whose start marker is the first line of the file yields no section at all. */
  lemma LineZeroConflictIsDropped()
    ensures var content := ["<<<<<<< HEAD\n", "ours\n", "=======\n", "theirs\n", ">>>>>>> topic\n"];
      MarkedConflict(content, 0, 4) && ConflictPairs(content) == []
  {
    var content := ["<<<<<<< HEAD\n", "ours\n", "=======\n", "theirs\n", ">>>>>>> topic\n"];
    assert IsStart(content[0]) && !IsEnd(content[0]);
    assert !IsStart(content[1]) && !IsEnd(content[1]);
    assert content[2][0] == '=' && !IsStart(content[2]) && !IsEnd(content[2]);
    assert !IsStart(content[3]) && !IsEnd(content[3]);
    assert !IsStart(content[4]) && IsEnd(content[4]);
    assert PairsFrom(content, 5, Some(0)) == [];
    assert PairsFrom(content, 1, Some(0)) == [];
  }

  /** Reads the file's lines once and cuts one widened section per emitted pair. */
  method GetConflictSections(content: seq<string>, margin: nat) returns (sections: seq<seq<string>>)
    ensures |sections| == |ConflictPairs(content)|
    ensures forall k :: 0 <= k < |sections| ==> sections[k] == Window(content, ConflictPairs(content)[k], margin)
  {
    sections := [];
    ghost var pairs: seq<Pair> := [];
    var start: Option<nat> := None;
    var i := 0;
    while i < |content|
      invariant 0 <= i <= |content|
      invariant start.Some? ==> start.value < i
      invariant pairs + PairsFrom(content, i, start) == ConflictPairs(content)
      invariant |sections| == |pairs|
      invariant forall k :: 0 <= k < |pairs| ==> pairs[k].0 <= pairs[k].1 < |content| && sections[k] == Window(content, pairs[k], margin)
    {
      if StartsWith(content[i], StartMarker) {
        start := Some(i);
      } else if start.Some? && start.value != 0 && StartsWith(content[i], EndMarker) {
        var w := Widen(|content|, start.value, i, margin);
        sections := sections + [content[w.0..w.1]];
        pairs := pairs + [(start.value, i)];
        start := None;
      }
      i := i + 1;
    }
  }

  /**
   * Each section holds its conflict verbatim: the start-marker line, the end-marker
   * line and everything between, at the offset the margin leaves in front.
   */
  lemma SectionHoldsConflict(content: seq<string>, margin: nat, k: nat)
    requires k < |ConflictPairs(content)|
    ensures var p := ConflictPairs(content)[k];
      var lo := Widen(|content|, p.0, p.1, margin).0;
      var section := Window(content, p, margin);
      && lo <= p.0 && p.1 - lo < |section|
      && IsStart(section[p.0 - lo]) && IsEnd(section[p.1 - lo])
      && section[p.0 - lo..p.1 + 1 - lo] == content[p.0..p.1 + 1]
  {
    var p := ConflictPairs(content)[k];
    assert p in ConflictPairs(content);
    ConflictPairsExactly(content, p.0, p.1);
    WindowHoldsConflict(content, p, margin);
  }

  // ---------------------------------------------------------------------------
  // output_conflict

  /** The fence that opens the conflict text of `file`. */
  function ConflictFence(file: string): string { "```conflict:" + file + "\n" }

  /** The fence that closes the conflict text and opens the resolution text of `file`. */
  function ResolutionFence(file: string): string { "```\n```resolution:" + file + "\n" }

  const ClosingFence := "\n```\n"

  /** One fenced record: the conflict's lines as read, then its resolution text. */
  function Block(file: string, section: seq<string>, resolution: string): string {
    ConflictFence(file) + (Concat(section) + (ResolutionFence(file) + (resolution + ClosingFence)))
  }

  /** What `output_conflict` appends: one block per section, paired with the resolutions as `zip` pairs them. */
  function Rendered(file: string, sections: seq<seq<string>>, resolutions: seq<string>): string
    decreases |sections|
  {
    if sections == [] || resolutions == [] then ""
    else Block(file, sections[0], resolutions[0]) + Rendered(file, sections[1..], resolutions[1..])
  }

  lemma RenderedStep(file: string, sections: seq<seq<string>>, resolutions: seq<string>, i: nat)
    requires i < |sections| && i < |resolutions|
    ensures Rendered(file, sections[i..], resolutions[i..])
      == Block(file, sections[i], resolutions[i]) + Rendered(file, sections[i + 1..], resolutions[i + 1..])
  {
    assert sections[i..][1..] == sections[i + 1..];
    assert resolutions[i..][1..] == resolutions[i + 1..];
  }

  /** Appends one block per pair; the source writes each block in six pieces, which together are `Block`. */
  method OutputConflict(file: string, sections: seq<seq<string>>, resolutions: seq<string>) returns (appended: string)
    ensures appended == Rendered(file, sections, resolutions)
  {
    appended := "";
    var n := Min(|sections|, |resolutions|);
    var i := 0;
    while i < n
      invariant 0 <= i <= n
      invariant appended + Rendered(file, sections[i..], resolutions[i..]) == Rendered(file, sections, resolutions)
    {
      RenderedStep(file, sections, resolutions, i);
      appended := appended + Block(file, sections[i], resolutions[i]);
      i := i + 1;
    }
  }

  /** Reads `head + conflict + mid + resolution + end` back, cutting the conflict at its first backquote. */
  function Unfence(block: string, head: string, mid: string, end: string): Option<(string, string)> {
    if !StartsWith(block, head) then None
    else
      var rest := block[|head|..];
      var i := FirstIndex(rest, '`');
      var tail := rest[i..];
      if !StartsWith(tail, mid) then None
      else
        var r := tail[|mid|..];
        if !EndsWith(r, end) then None
        else Some((rest[..i], r[..|r| - |end|]))
  }

  /** Reads one block back into its conflict text and resolution text. */
  function ParseBlock(file: string, block: string): Option<(string, string)> {
    Unfence(block, ConflictFence(file), ResolutionFence(file), ClosingFence)
  }

  lemma CutPrefix(head: string, rest: string)
    ensures StartsWith(head + rest, head) && (head + rest)[|head|..] == rest
  {
    assert (head + rest)[..|head|] == head;
  }

  lemma CutAtBackquote(c: string, tail: string)
    requires '`' !in c && tail != [] && tail[0] == '`'
    ensures FirstIndex(c + tail, '`') == |c| && (c + tail)[..|c|] == c && (c + tail)[|c|..] == tail
  {
    var rest := c + tail;
    assert forall k :: 0 <= k < |c| ==> rest[k] == c[k];
    assert rest[|c|] == '`';
  }

  lemma CutSuffix(r: string, end: string)
    ensures EndsWith(r + end, end) && (r + end)[..|r + end| - |end|] == r
  {
    assert (r + end)[|r|..] == end;
  }

  lemma UnfenceRoundTrip(head: string, c: string, mid: string, r: string, end: string)
    requires '`' !in c && mid != [] && mid[0] == '`'
    ensures Unfence(head + (c + (mid + (r + end))), head, mid, end) == Some((c, r))
  {
    CutPrefix(head, c + (mid + (r + end)));
    CutAtBackquote(c, mid + (r + end));
    CutPrefix(mid, r + end);
    CutSuffix(r, end);
  }

  /** Round trip: a block reads back to the section's text and the resolution, when the section holds no backquote. */
  lemma BlockRoundTrip(file: string, section: seq<string>, resolution: string)
    requires '`' !in Concat(section)
    ensures ParseBlock(file, Block(file, section, resolution)) == Some((Concat(section), resolution))
  {
    assert ResolutionFence(file)[0] == '`';
    UnfenceRoundTrip(ConflictFence(file), Concat(section), ResolutionFence(file), resolution, ClosingFence);
  }

  /** The blocks `output_conflict` writes, one per `zip` pair, in order. */
  function Blocks(file: string, sections: seq<seq<string>>, resolutions: seq<string>): (bs: seq<string>)
    ensures |bs| == Min(|sections|, |resolutions|)
    ensures forall k :: 0 <= k < |bs| ==> bs[k] == Block(file, sections[k], resolutions[k])
  {
    seq(Min(|sections|, |resolutions|), k requires 0 <= k < Min(|sections|, |resolutions|) => Block(file, sections[k], resolutions[k]))
  }

  /** The appended text is the blocks one after the other, so each pair can be read back from its own block. */
  lemma {:induction false} RenderedIsBlocks(file: string, sections: seq<seq<string>>, resolutions: seq<string>)
    ensures Rendered(file, sections, resolutions) == Concat(Blocks(file, sections, resolutions))
    decreases |sections|
  {
    var bs := Blocks(file, sections, resolutions);
    if sections != [] && resolutions != [] {
      RenderedIsBlocks(file, sections[1..], resolutions[1..]);
      var rest := Blocks(file, sections[1..], resolutions[1..]);
      assert bs[1..] == rest;
    }
  }

  /**
   * Round trip of the whole record: the appended text splits into one block
   * per pair, and each block whose section holds no backquote reads back to
   * that section's text and its resolution.
   */
  lemma RenderedRoundTrip(file: string, sections: seq<seq<string>>, resolutions: seq<string>)
    requires forall k :: 0 <= k < |sections| ==> '`' !in Concat(sections[k])
    ensures var bs := Blocks(file, sections, resolutions);
      && Rendered(file, sections, resolutions) == Concat(bs)
      && forall k :: 0 <= k < |bs| ==> ParseBlock(file, bs[k]) == Some((Concat(sections[k]), resolutions[k]))
  {
    RenderedIsBlocks(file, sections, resolutions);
    var bs := Blocks(file, sections, resolutions);
    forall k | 0 <= k < |bs| ensures ParseBlock(file, bs[k]) == Some((Concat(sections[k]), resolutions[k])) {
      BlockRoundTrip(file, sections[k], resolutions[k]);
    }
  }
}
