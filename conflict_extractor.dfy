/**
 * The parts of merge_conflict_extractor.py that differ from the format-patch
 * variant: `get_commit_id` raises when the patch names no commit, and
 * `get_conflict_files` pulls the file names out of the `git am -3` output with
 * the regular expression `Conflicts:\n\t(.*?)\n`. The margin helper, the
 * section scanner, the header/footer split and the position matching are the
 * same code as in the format-patch variant and are modelled there.
 */
module ConflictExtractor {
  import opened Wrappers
  import opened Text
  import FormatPatchExtractor

  // ---------------------------------------------------------------------------
  // get_commit_id, raising variant

  /** The message of the `ValueError` raised for a patch without a `From ` line. */
  function MissingMessage(path: string): string {
    "Could not find commit ID in " + path
  }

  /** The second field of the first `From ` line, unstripped; raises when there is no such line or it has one field only. */
  function CommitIdOrRaise(path: string, lines: seq<string>): (r: Result<string>)
    ensures r.Ok? ==> r.value != [] && NoSpace(r.value)
    ensures r.Err? ==> r.error == CommitIdMissing(MissingMessage(path)) || r.error == IndexOutOfRange
  {
    var k := FirstLineWith(lines, FormatPatchExtractor.FromPrefix);
    if k == |lines| then Err(CommitIdMissing(MissingMessage(path)))
    else
      var fields := Fields(lines[k]);
      if |fields| < 2 then Err(IndexOutOfRange) else Ok(fields[1])
  }

  /** Returns from inside the scan at the first `From ` line; raises after it when none was seen. */
  method GetCommitId(path: string, lines: seq<string>) returns (r: Result<string>)
    ensures r == CommitIdOrRaise(path, lines)
  {
    var i := 0;
    while i < |lines|
      invariant 0 <= i <= |lines|
      invariant forall k :: 0 <= k < i ==> !StartsWith(lines[k], FormatPatchExtractor.FromPrefix)
    {
      if StartsWith(lines[i], FormatPatchExtractor.FromPrefix) {
        var fields := Fields(lines[i]);
        if |fields| < 2 {
          return Err(IndexOutOfRange);
        }
        return Ok(fields[1]);
      }
      i := i + 1;
    }
    return Err(CommitIdMissing(MissingMessage(path)));
  }

  /**
   * The two variants agree: the raising one raises `ValueError` exactly where
   * the other returns `None`, raises `IndexError` exactly where the other does,
   * and otherwise both give the same id.
   */
  lemma CommitIdVariantsAgree(path: string, lines: seq<string>)
    ensures CommitIdOrRaise(path, lines).Err? && CommitIdOrRaise(path, lines).error.CommitIdMissing? <==>
      FormatPatchExtractor.CommitIdOf(lines) == Ok(None)
    ensures CommitIdOrRaise(path, lines) == Err(IndexOutOfRange) <==>
      FormatPatchExtractor.CommitIdOf(lines) == Err(IndexOutOfRange)
    ensures CommitIdOrRaise(path, lines).Ok? <==>
      FormatPatchExtractor.CommitIdOf(lines).Ok? && FormatPatchExtractor.CommitIdOf(lines).value.Some?
    ensures CommitIdOrRaise(path, lines).Ok? ==>
      FormatPatchExtractor.CommitIdOf(lines).value.value == CommitIdOrRaise(path, lines).value
  {
    var k := FirstLineWith(lines, FormatPatchExtractor.FromPrefix);
    if k < |lines| {
      var fields := Fields(lines[k]);
      if |fields| >= 2 {
        StripSpec(fields[1]);
      }
    }
  }

  // ---------------------------------------------------------------------------
  // get_conflict_files, regular-expression variant

  /** The literal part of `Conflicts:\n\t(.*?)\n` before the group. */
  const ConflictsTag := "Conflicts:\n\t"

  /**
   * `re.findall(r'Conflicts:\n\t(.*?)\n', s)`: at each position, a match is the
   * tag, then the shortest run of characters other than a newline, then a
   * newline; the group is that run. After a match the search resumes behind
   * its newline, otherwise one character further on.
   */
  function FindAll(s: string): (groups: seq<string>)
    ensures forall k :: 0 <= k < |groups| ==> '\n' !in groups[k]
    decreases |s|
  {
    if s == [] then []
    else if StartsWith(s, ConflictsTag) && FirstIndex(s[|ConflictsTag|..], '\n') < |s| - |ConflictsTag| then
      var rest := s[|ConflictsTag|..];
      var n := FirstIndex(rest, '\n');
      assert forall j :: 0 <= j < n ==> rest[..n][j] == rest[j];
      [rest[..n]] + FindAll(rest[n + 1..])
    else FindAll(s[1..])
  }

  /** `get_conflict_files`: nothing unless the output mentions both `Applying` and `Conflicts`. */
  function ConflictFilesOf(stdout: string): (files: seq<string>)
    ensures !Contains(stdout, "Applying") || !Contains(stdout, "Conflicts") ==> files == []
    ensures forall k :: 0 <= k < |files| ==> '\n' !in files[k]
  {
    if Contains(stdout, "Applying") && Contains(stdout, "Conflicts") then FindAll(stdout) else []
  }

  /** The report `Conflicts:\n\t<name>\n` for each name, one after the other. */
  function Report(names: seq<string>): string {
    if names == [] then "" else ConflictsTag + names[0] + "\n" + Report(names[1..])
  }

  /** One report entry is one match, and the search goes on right after it. */
  lemma FindAllEntry(name: string, more: string)
    requires '\n' !in name
    ensures FindAll(ConflictsTag + name + "\n" + more) == [name] + FindAll(more)
  {
    var s := ConflictsTag + name + "\n" + more;
    assert s[..|ConflictsTag|] == ConflictsTag;
    var rest := s[|ConflictsTag|..];
    assert rest == name + "\n" + more;
    assert rest[|name|] == '\n';
    assert FirstIndex(rest, '\n') == |name|;
    assert rest[..|name|] == name && rest[|name| + 1..] == more;
  }

  /** A run of report entries is read back name by name, and the search goes on after the run. */
  lemma {:induction false} FindAllReport(names: seq<string>, tail: string)
    requires forall k :: 0 <= k < |names| ==> '\n' !in names[k]
    ensures FindAll(Report(names) + tail) == names + FindAll(tail)
  {
    if names == [] {
      assert Report(names) + tail == tail;
    } else {
      assert forall k :: 0 <= k < |names| - 1 ==> names[1..][k] == names[k + 1];
      FindAllReportStep(names, tail);
      FindAllReport(names[1..], tail);
      ConsAppend(names, FindAll(tail));
    }
  }

  lemma ConsAppend<T>(xs: seq<T>, ys: seq<T>)
    requires xs != []
    ensures xs + ys == [xs[0]] + (xs[1..] + ys)
  {
  }

  /** The first entry of a report followed by more text is one match, and the search goes on with the rest. */
  lemma FindAllReportStep(names: seq<string>, tail: string)
    requires names != [] && '\n' !in names[0]
    ensures FindAll(Report(names) + tail) == [names[0]] + FindAll(Report(names[1..]) + tail)
  {
    var more := Report(names[1..]) + tail;
    assert Report(names) + tail == ConflictsTag + names[0] + "\n" + more;
    FindAllEntry(names[0], more);
  }

  /** Each of `groups` occurs in `s` between the tag and a newline. */
  predicate AllReported(s: string, groups: seq<string>) {
    forall k :: 0 <= k < |groups| ==> Contains(s, ConflictsTag + groups[k] + "\n")
  }

  /** Every group is read out of an occurrence of the tag, the group and a newline in the input. */
  lemma {:induction false} FindAllSound(s: string)
    ensures AllReported(s, FindAll(s))
    decreases |s|
  {
    if s == [] {
    } else if StartsWith(s, ConflictsTag) && FirstIndex(s[|ConflictsTag|..], '\n') < |s| - |ConflictsTag| {
      var rest := s[|ConflictsTag|..];
      var n := FirstIndex(rest, '\n');
      var g := rest[..n];
      var after := rest[n + 1..];
      MatchSplit(s, n);
      FindAllSound(after);
      ReportedInLonger(ConflictsTag + g + "\n", after, FindAll(after));
      ContainsMiddle([], ConflictsTag + g + "\n", after);
      ReportedCons(s, g, FindAll(after));
    } else {
      FindAllSound(s[1..]);
      ReportedInLonger([s[0]], s[1..], FindAll(s[1..]));
      assert [s[0]] + s[1..] == s;
    }
  }

  /** Where a match starts, the input is the tag, the group, a newline and the rest. */
  lemma MatchSplit(s: string, n: nat)
    requires StartsWith(s, ConflictsTag) && n < |s| - |ConflictsTag| && n == FirstIndex(s[|ConflictsTag|..], '\n')
    ensures var rest := s[|ConflictsTag|..];
      && s == ConflictsTag + rest[..n] + "\n" + rest[n + 1..]
      && [] + (ConflictsTag + rest[..n] + "\n") + rest[n + 1..] == s
  {
    var rest := s[|ConflictsTag|..];
    assert rest == rest[..n] + "\n" + rest[n + 1..];
    assert s == s[..|ConflictsTag|] + rest;
  }

  lemma ReportedInLonger(a: string, b: string, groups: seq<string>)
    requires AllReported(b, groups)
    ensures AllReported(a + b, groups)
  {
    forall k | 0 <= k < |groups| ensures Contains(a + b, ConflictsTag + groups[k] + "\n") {
      ContainsInLonger(a, b, ConflictsTag + groups[k] + "\n");
    }
  }

  lemma ReportedCons(s: string, g: string, groups: seq<string>)
    requires Contains(s, ConflictsTag + g + "\n") && AllReported(s, groups)
    ensures AllReported(s, [g] + groups)
  {
    forall k | 0 <= k < |groups| + 1 ensures Contains(s, ConflictsTag + ([g] + groups)[k] + "\n") {
      if k > 0 {
        assert ([g] + groups)[k] == groups[k - 1];
      }
    }
  }

  /** Text that contains `a + b` contains `a`. */
  lemma ContainsFront(s: string, a: string, b: string)
    requires Contains(s, a + b)
    ensures Contains(s, a)
  {
    var i :| 0 <= i <= |s| - |a + b| && OccursAt(s, a + b, i);
    assert s[i..i + |a|] == (a + b)[..|a|] == a;
    assert OccursAt(s, a, i);
  }

  /** Text without the tag has no match. */
  lemma FindAllNone(t: string)
    requires !Contains(t, ConflictsTag)
    ensures FindAll(t) == []
  {
    FindAllSound(t);
    if FindAll(t) != [] {
      assert ConflictsTag + FindAll(t)[0] + "\n" == ConflictsTag + (FindAll(t)[0] + "\n");
      ContainsFront(t, ConflictsTag, FindAll(t)[0] + "\n");
    }
  }

  /** The tag's only `C` is its first character. */
  lemma TagHasOneC(j: nat)
    requires 1 <= j < |ConflictsTag|
    ensures ConflictsTag[j] != 'C'
  {
  }

  /**
   * Text without the tag, followed by text that is empty or starts with `C`,
   * starts no match: the tag's only `C` is its first character, so no match
   * can begin inside the text and run on into what follows.
   */
  lemma {:induction false} FindAllSkips(text: string, more: string)
    requires !Contains(text, ConflictsTag)
    requires more == [] || more[0] == 'C'
    ensures FindAll(text + more) == FindAll(more)
  {
    if text == [] {
      assert text + more == more;
    } else {
      var s := text + more;
      assert s[1..] == text[1..] + more;
      if |ConflictsTag| <= |text| {
        assert !OccursAt(text, ConflictsTag, 0);
        assert s[..|ConflictsTag|] == text[..|ConflictsTag|];
      } else if |ConflictsTag| <= |s| {
        TagHasOneC(|text|);
        assert s[..|ConflictsTag|][|text|] == more[0];
      }
      assert !StartsWith(s, ConflictsTag);
      assert text == [text[0]] + text[1..];
      assert !Contains(text[1..], ConflictsTag) by {
        if Contains(text[1..], ConflictsTag) {
          ContainsInLonger([text[0]], text[1..], ConflictsTag);
        }
      }
      FindAllSkips(text[1..], more);
    }
  }

  lemma ContainsInLonger(a: string, b: string, sub: string)
    ensures Contains(a, sub) ==> Contains(a + b, sub)
    ensures Contains(b, sub) ==> Contains(a + b, sub)
  {
    if Contains(a, sub) {
      var i :| 0 <= i <= |a| - |sub| && OccursAt(a, sub, i);
      assert (a + b)[i..i + |sub|] == a[i..i + |sub|];
      assert OccursAt(a + b, sub, i);
    }
    if Contains(b, sub) {
      var i :| 0 <= i <= |b| - |sub| && OccursAt(b, sub, i);
      assert (a + b)[|a| + i..|a| + i + |sub|] == b[i..i + |sub|];
      assert OccursAt(a + b, sub, |a| + i);
    }
  }

  /** A non-empty report mentions `Conflicts`. */
  lemma ReportMentionsConflicts(names: seq<string>)
    requires names != []
    ensures Contains(Report(names), "Conflicts")
  {
    var r := Report(names);
    assert r[..9] == ConflictsTag[..9] == "Conflicts";
    assert OccursAt(r, "Conflicts", 0);
  }

  /**
   * Output that mentions `Applying` and holds no tag, then a non-empty report,
   * then text holding no tag, gives back exactly the report's names: the guard
   * passes, the text around the report starts no match, and every entry is
   * one match.
   */
  lemma ConflictFilesRoundTrip(head: string, names: seq<string>, tail: string)
    requires Contains(head, "Applying") && !Contains(head, ConflictsTag)
    requires names != [] && forall k :: 0 <= k < |names| ==> '\n' !in names[k]
    requires !Contains(tail, ConflictsTag)
    ensures ConflictFilesOf(head + Report(names) + tail) == names
  {
    var report := Report(names);
    var more := report + tail;
    assert head + report + tail == head + more;
    ReportMentionsConflicts(names);
    ContainsInLonger(report, tail, "Conflicts");
    ContainsInLonger(head, more, "Applying");
    ContainsInLonger(head, more, "Conflicts");
    assert more[0] == report[0] == 'C';
    FindAllSkips(head, more);
    FindAllReport(names, tail);
    FindAllNone(tail);
    assert names + [] == names;
  }
}
