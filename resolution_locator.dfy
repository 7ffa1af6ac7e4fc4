/**
 * Locating the resolved text of a conflict in the merged file: the margins of
 * each conflict section become its header and footer, each is matched against
 * the merged file's lines, and the lines between the two matches are the
 * resolution. Shared by merge_conflict_extractor_with_format_patch.py and
 * merge_conflict_extractor.py, whose copies of these functions are identical.
 */
module ResolutionLocator {
  import opened Wrappers
  import opened Text
  import opened Regions
  import FormatPatchExtractor

  // ---------------------------------------------------------------------------
  // get_marker_head_tail

  /** The leading and trailing margins of one section; `None` where the marker was not seen. */
  datatype HeadTail = HeadTail(header: Option<seq<string>>, footer: Option<seq<string>>)

  predicate IsStart(line: string) { FormatPatchExtractor.IsStart(line) }

  predicate IsEnd(line: string) { FormatPatchExtractor.IsEnd(line) }

  /** The last start-marker line before line `j`, if any. */
  function LastStartBefore(section: seq<string>, j: nat): (r: Option<nat>)
    requires j <= |section|
    ensures r.Some? ==> r.value < j && IsStart(section[r.value])
    ensures r.Some? ==> forall k :: r.value < k < j ==> !IsStart(section[k])
    ensures r.None? ==> forall k :: 0 <= k < j ==> !IsStart(section[k])
  {
    if j == 0 then None
    else if IsStart(section[j - 1]) then Some(j - 1)
    else LastStartBefore(section, j - 1)
  }

  /**
   * The header is everything before the last start marker that precedes the
   * first end marker; the footer is everything after that first end marker.
   */
  function HeadTailOf(section: seq<string>): (ht: HeadTail)
    ensures ht.footer.None? <==> forall k :: 0 <= k < |section| ==> !IsEnd(section[k])
    ensures ht.header.Some? ==> |ht.header.value| < |section| && IsStart(section[|ht.header.value|])
    ensures ht.footer.Some? ==> |ht.footer.value| < |section| && IsEnd(section[|section| - |ht.footer.value| - 1])
  {
    var j := FirstLineWith(section, FormatPatchExtractor.EndMarker);
    var i := LastStartBefore(section, j);
    HeadTail(if i.Some? then Some(section[..i.value]) else None,
             if j < |section| then Some(section[j + 1..]) else None)
  }

  /** The scan over one section: a start marker (re)sets the header, the first end marker sets the footer and stops. */
  method MarkerHeadTail(section: seq<string>) returns (ht: HeadTail)
    ensures ht == HeadTailOf(section)
  {
    var header: Option<seq<string>> := None;
    var footer: Option<seq<string>> := None;
    var i := 0;
    while i < |section|
      invariant 0 <= i <= |section|
      invariant forall k :: 0 <= k < i ==> !IsEnd(section[k])
      invariant header == (var s := LastStartBefore(section, i); if s.Some? then Some(section[..s.value]) else None)
      invariant footer.None?
    {
      if StartsWith(section[i], FormatPatchExtractor.StartMarker) {
        header := Some(section[..i]);
      } else if StartsWith(section[i], FormatPatchExtractor.EndMarker) {
        footer := Some(section[i + 1..]);
        break;
      }
      i := i + 1;
    }
    ht := HeadTail(header, footer);
  }

  method GetMarkerHeadTail(sections: seq<seq<string>>) returns (results: seq<HeadTail>)
    ensures |results| == |sections|
    ensures forall k :: 0 <= k < |sections| ==> results[k] == HeadTailOf(sections[k])
  {
    results := [];
    var n := 0;
    while n < |sections|
      invariant 0 <= n <= |sections|
      invariant |results| == n
      invariant forall k :: 0 <= k < n ==> results[k] == HeadTailOf(sections[k])
    {
      var ht := MarkerHeadTail(sections[n]);
      results := results + [ht];
      n := n + 1;
    }
  }

  /** The first end marker of a section is the one at `e` when none comes before it. */
  lemma FirstEndAt(section: seq<string>, e: nat)
    requires e < |section| && IsEnd(section[e])
    requires forall k :: 0 <= k < e ==> !IsEnd(section[k])
    ensures FirstLineWith(section, FormatPatchExtractor.EndMarker) == e
  {
  }

  /**
   * A section holding one conflict, from its start marker at `s` to its end
   * marker at `e`, with no end marker before `e`: the header is everything
   * before `s` and the footer everything after `e`.
   */
  lemma HeadTailOfConflict(section: seq<string>, s: nat, e: nat)
    requires s < e < |section| && IsStart(section[s]) && IsEnd(section[e])
    requires forall k :: 0 <= k < e ==> !IsEnd(section[k])
    requires forall k :: s < k < e ==> !IsStart(section[k])
    ensures HeadTailOf(section) == HeadTail(Some(section[..s]), Some(section[e + 1..]))
  {
    FirstEndAt(section, e);
    var i := LastStartBefore(section, e);
    assert i == Some(s);
  }

  /**
   * A section whose first end marker comes before any start marker has no
   * header, whatever follows.
   */
  lemma HeadTailWithoutHeader(section: seq<string>, e: nat)
    requires e < |section| && IsEnd(section[e])
    requires forall k :: 0 <= k < e ==> !IsEnd(section[k]) && !IsStart(section[k])
    ensures HeadTailOf(section) == HeadTail(None, Some(section[e + 1..]))
  {
    FirstEndAt(section, e);
  }

  /**
   * The section `content[lo..hi]` around one conflict from `s` to `e`, with no
   * end marker before `e` and no start marker between the two: its header is
   * `content[lo..s]` and its footer `content[e + 1..hi]`.
   */
  lemma HeadTailOfSlice(content: seq<string>, lo: nat, hi: nat, s: nat, e: nat)
    requires lo <= s < e < hi <= |content| && IsStart(content[s]) && IsEnd(content[e])
    requires forall j :: lo <= j < e ==> !IsEnd(content[j])
    requires forall j :: s < j < e ==> !IsStart(content[j])
    ensures HeadTailOf(content[lo..hi]) == HeadTail(Some(content[lo..s]), Some(content[e + 1..hi]))
  {
    SliceKeepsMarkers(content, lo, hi, s, e);
    SliceOfSlice(content, lo, hi, 0, s - lo);
    SliceOfSlice(content, lo, hi, e - lo + 1, hi - lo);
  }

  /** The header and footer of the slice, as slices of the slice. */
  lemma SliceKeepsMarkers(content: seq<string>, lo: nat, hi: nat, s: nat, e: nat)
    requires lo <= s < e < hi <= |content| && IsStart(content[s]) && IsEnd(content[e])
    requires forall j :: lo <= j < e ==> !IsEnd(content[j])
    requires forall j :: s < j < e ==> !IsStart(content[j])
    ensures var section := content[lo..hi];
      HeadTailOf(section) == HeadTail(Some(section[..s - lo]), Some(section[e - lo + 1..]))
  {
    var section := content[lo..hi];
    forall j | 0 <= j < e - lo ensures !IsEnd(section[j]) {
      assert section[j] == content[lo + j];
    }
    forall j | s - lo < j < e - lo ensures !IsStart(section[j]) {
      assert section[j] == content[lo + j];
    }
    assert section[s - lo] == content[s] && section[e - lo] == content[e];
    HeadTailOfConflict(section, s - lo, e - lo);
  }

  /**
   * For a section cut around an emitted conflict whose leading margin holds no
   * end-marker line, the header is exactly the leading margin and the footer
   * exactly the trailing margin.
   */
  lemma HeadTailOfWindow(content: seq<string>, margin: nat, p: Pair)
    requires p in FormatPatchExtractor.ConflictPairs(content)
    requires forall j :: Widen(|content|, p.0, p.1, margin).0 <= j < p.0 ==> !IsEnd(content[j])
    ensures p.0 < p.1 < |content|
    ensures var w := Widen(|content|, p.0, p.1, margin);
      HeadTailOf(Window(content, p, margin)) == HeadTail(Some(content[w.0..p.0]), Some(content[p.1 + 1..w.1]))
  {
    FormatPatchExtractor.ConflictPairsExactly(content, p.0, p.1);
    FormatPatchExtractor.MarkersExclusive(content[p.0]);
    var w := Widen(|content|, p.0, p.1, margin);
    HeadTailOfSlice(content, w.0, w.1, p.0, p.1);
  }

  /** The three marker lines used below, classified. */
  lemma MarkerLines()
    ensures IsStart("<<<<<<< x") && !IsEnd("<<<<<<< x")
    ensures IsEnd(">>>>>>> y") && !IsStart(">>>>>>> y")
    ensures !IsStart("a") && !IsEnd("a")
  {
    assert "<<<<<<< x"[..7] == FormatPatchExtractor.StartMarker;
    assert ">>>>>>> y"[..7] == FormatPatchExtractor.EndMarker;
  }

  /**
   * When two conflicts are closer than the margin, the second section's leading
   * margin runs into the first conflict and its header is lost: widening does
   * not stop at a neighbouring conflict, so resolving that section raises.
   */
  lemma NeighbourLosesHeader()
    ensures var content := ["a", "<<<<<<< x", ">>>>>>> y", "<<<<<<< x", ">>>>>>> y"];
      && (3, 4) in FormatPatchExtractor.ConflictPairs(content)
      && Window(content, (3, 4), 1) == content[2..5]
      && HeadTailOf(content[2..5]) == HeadTail(None, Some(content[3..5]))
  {
    var content := ["a", "<<<<<<< x", ">>>>>>> y", "<<<<<<< x", ">>>>>>> y"];
    MarkerLines();
    assert FormatPatchExtractor.MarkedConflict(content, 3, 4);
    FormatPatchExtractor.ConflictPairsExactly(content, 3, 4);
    var section := content[2..5];
    assert section[0] == ">>>>>>> y";
    HeadTailWithoutHeader(section, 0);
    SliceOfSlice(content, 2, 5, 1, 3);
  }

  // ---------------------------------------------------------------------------
  // get_match_position

  /**
   * The largest first-occurrence index in `source` over the elements of
   * `target`, 0 when none occurs: the maximum of the first positions of all
   * target elements that occur.
   */
  function MaxFirst<T(==)>(source: seq<T>, target: seq<T>): (r: nat)
    ensures target == [] ==> r == 0
    ensures r == 0 || r < |source|
    ensures forall k :: 0 <= k < |target| && FirstIndex(source, target[k]) < |source| ==> FirstIndex(source, target[k]) <= r
    ensures r == 0 || exists k :: 0 <= k < |target| && FirstIndex(source, target[k]) == r
  {
    if target == [] then 0
    else
      var n := |target| - 1;
      var prev := MaxFirst(source, target[..n]);
      assert forall k :: 0 <= k < n ==> target[..n][k] == target[k];
      var i := FirstIndex(source, target[n]);
      if i < |source| then Max(i, prev) else prev
  }

  lemma MaxFirstStep<T>(source: seq<T>, target: seq<T>, d: nat)
    requires d < |target|
    ensures var prev := MaxFirst(source, target[..d]);
      var i := FirstIndex(source, target[d]);
      MaxFirst(source, target[..d + 1]) == if i < |source| then Max(i, prev) else prev
  {
    PrefixStep(target, d);
  }

  /** `get_match_position`: lines are compared after stripping both sides. */
  function MatchPosition(source: seq<string>, target: seq<string>): (r: nat)
    ensures target == [] ==> r == 0
    ensures r == 0 || r < |source|
  {
    MaxFirst(StripAll(source), StripAll(target))
  }

  /** The inner scan of `get_match_position`: the first source line equal to `t` once stripped, `|source|` when none is. */
  method FirstMatch(source: seq<string>, t: string) returns (i: nat)
    ensures i == FirstIndex(StripAll(source), t)
  {
    ghost var stripped := StripAll(source);
    i := 0;
    while i < |source|
      invariant 0 <= i <= |source|
      invariant forall k :: 0 <= k < i ==> stripped[k] != t
    {
      if Strip(source[i]) == t {
        break;
      }
      i := i + 1;
    }
  }

  /** For each target line, the inner scan stops at the first matching source line. */
  method GetMatchPosition(source: seq<string>, target: seq<string>) returns (result: nat)
    ensures result == MatchPosition(source, target)
  {
    ghost var stripped := StripAll(source);
    ghost var wanted := StripAll(target);
    result := 0;
    var d := 0;
    while d < |target|
      invariant 0 <= d <= |target|
      invariant result == MaxFirst(stripped, wanted[..d])
    {
      MaxFirstStep(stripped, wanted, d);
      var i := FirstMatch(source, Strip(target[d]));
      if i < |source| {
        result := Max(i, result);
      }
      d := d + 1;
    }
    TakeAll(wanted);
  }

  /**
   * A line that occurs twice in the source resolves to its earlier occurrence:
   * the later one is never the result.
   */
  lemma EarliestDuplicateWins(source: seq<string>, line: string, a: nat, b: nat)
    requires a < b < |source|
    requires Strip(source[a]) == Strip(line) && Strip(source[b]) == Strip(line)
    ensures MatchPosition(source, [line]) <= a < b
  {
    var wanted := StripAll([line]);
    assert wanted[0] == Strip(line);
    assert StripAll(source)[a] == Strip(line);
  }

  /**
   * A target that is the run `source[a..b]`, each of whose elements first
   * occurs at its own place, matches at the run's last element.
   */
  lemma {:induction false} MaxFirstOfRun<T>(source: seq<T>, target: seq<T>, a: nat, b: nat)
    requires a < b <= |source| && |target| == b - a
    requires forall k :: 0 <= k < |target| ==> target[k] == source[a + k]
    requires forall j :: a <= j < b ==> FirstIndex(source, source[j]) == j
    ensures MaxFirst(source, target) == b - 1
  {
    var r := MaxFirst(source, target);
    var last := |target| - 1;
    assert FirstIndex(source, target[last]) == b - 1;
    if r != 0 {
      var k :| 0 <= k < |target| && FirstIndex(source, target[k]) == r;
      assert target[k] == source[a + k];
    }
  }

  // ---------------------------------------------------------------------------
  // get_resolved_contents, per section

  /** What one section resolves to: the placeholder "NOT FOUND", or the lines of the merged file. */
  datatype Resolution = NotFound | Resolved(lines: seq<string>)

  /** `content[lo:hi]` in Python for non-negative bounds: both are cut to the length, and the slice is empty when `lo > hi`. */
  function Slice(content: seq<string>, lo: nat, hi: int): (r: seq<string>)
    ensures lo <= hi <= |content| ==> r == content[lo..hi]
    ensures hi < lo || |content| <= lo ==> r == []
  {
    var l := Min(lo, |content|);
    var h := Min(Max(hi, 0), |content|);
    if l <= h then content[l..h] else []
  }

  /**
   * The slice decision as written, from the two match positions: "NOT FOUND"
   * when either is 0, else the lines after `start_pos` up to `end_pos - len(footer)`
   * (raised to at least `start_pos`).
   */
  function ResolveAtAsWritten(content: seq<string>, footerLength: nat, startPos: nat, endPos: nat): (r: Resolution)
    ensures r.NotFound? <==> startPos == 0 || endPos == 0
    ensures r.Resolved? && startPos < |content| ==> startPos + 1 + |r.lines| <= |content| && r.lines == content[startPos + 1..startPos + 1 + |r.lines|]
    ensures r.Resolved? && |content| <= startPos ==> r.lines == []
  {
    if startPos != 0 && endPos != 0 then
      var s := Min(startPos, |content|);
      var e := Max(endPos - footerLength, s);
      Resolved(Slice(content, s + 1, e))
    else NotFound
  }

  /** The slice decision with the end one further, `end_pos - len(footer) + 1`: up to the first line of the matched footer. */
  function ResolveAt(content: seq<string>, footerLength: nat, startPos: nat, endPos: nat): (r: Resolution)
    ensures r.NotFound? <==> startPos == 0 || endPos == 0
    ensures r.Resolved? && startPos < |content| ==> startPos + 1 + |r.lines| <= |content| && r.lines == content[startPos + 1..startPos + 1 + |r.lines|]
    ensures r.Resolved? && |content| <= startPos ==> r.lines == []
  {
    if startPos != 0 && endPos != 0 then
      var s := Min(startPos, |content|);
      var e := Max(endPos - footerLength + 1, s);
      Resolved(Slice(content, s + 1, e))
    else NotFound
  }

  function ResolveSectionAsWritten(content: seq<string>, header: seq<string>, footer: seq<string>): (r: Resolution)
    ensures r.NotFound? <==> MatchPosition(content, header) == 0 || MatchPosition(content, footer) == 0
  {
    ResolveAtAsWritten(content, |footer|, MatchPosition(content, header), MatchPosition(content, footer))
  }

  function ResolveSection(content: seq<string>, header: seq<string>, footer: seq<string>): (r: Resolution)
    ensures r.NotFound? <==> MatchPosition(content, header) == 0 || MatchPosition(content, footer) == 0
  {
    ResolveAt(content, |footer|, MatchPosition(content, header), MatchPosition(content, footer))
  }

  /**
   * A merged file laid out as `..., header, resolved lines, footer, ...`, with
   * the header's last line `s` not the first line of the file, the footer
   * starting at `e`, and every header and footer element first occurring at its
   * own place.
   */
  predicate Framed<T(==)>(content: seq<T>, header: seq<T>, footer: seq<T>, s: nat, e: nat) {
    && header != [] && footer != []
    && 0 < s && |header| <= s + 1 && s < e && e + |footer| <= |content|
    && (forall k :: 0 <= k < |header| ==> header[k] == content[s + 1 - |header| + k])
    && (forall k :: 0 <= k < |footer| ==> footer[k] == content[e + k])
    && (forall j :: s + 1 - |header| <= j <= s ==> FirstIndex(content, content[j]) == j)
    && (forall j :: e <= j < e + |footer| ==> FirstIndex(content, content[j]) == j)
  }

  /** Framing is judged on stripped lines, as the matching compares them. */
  predicate FramedLines(content: seq<string>, header: seq<string>, footer: seq<string>, s: nat, e: nat) {
    Framed(StripAll(content), StripAll(header), StripAll(footer), s, e)
  }

  /** In a framed merged file the header matches at its last line and the footer at its last line. */
  lemma FramedPositions(content: seq<string>, header: seq<string>, footer: seq<string>, s: nat, e: nat)
    requires FramedLines(content, header, footer, s, e)
    ensures MatchPosition(content, header) == s
    ensures MatchPosition(content, footer) == e + |footer| - 1
  {
    MaxFirstOfRun(StripAll(content), StripAll(header), s + 1 - |header|, s + 1);
    MaxFirstOfRun(StripAll(content), StripAll(footer), e, e + |footer|);
  }

  /** With the header ending at `s` and a footer of `n` lines starting at `e`, the corrected slice is the lines in between. */
  lemma ResolveAtSpan(content: seq<string>, n: nat, s: nat, e: nat)
    requires 0 < n && 0 < s < e && e + n <= |content|
    ensures ResolveAt(content, n, s, e + n - 1) == Resolved(content[s + 1..e])
    ensures s + 1 < e ==> ResolveAtAsWritten(content, n, s, e + n - 1) == Resolved(content[s + 1..e - 1])
  {
  }

  /** The corrected decision recovers exactly the lines between the header and the footer. */
  lemma ResolveSectionRecoversSpan(content: seq<string>, header: seq<string>, footer: seq<string>, s: nat, e: nat)
    requires FramedLines(content, header, footer, s, e)
    ensures ResolveSection(content, header, footer) == Resolved(content[s + 1..e])
  {
    FramedPositions(content, header, footer, s, e);
    ResolveAtSpan(content, |footer|, s, e);
  }

  /** As written, the last line between the header and the footer is always lost. */
  lemma AsWrittenDropsLastLine(content: seq<string>, header: seq<string>, footer: seq<string>, s: nat, e: nat)
    requires FramedLines(content, header, footer, s, e) && s + 1 < e
    ensures ResolveSectionAsWritten(content, header, footer) == Resolved(content[s + 1..e - 1])
    ensures content[s + 1..e] == content[s + 1..e - 1] + [content[e - 1]]
  {
    FramedPositions(content, header, footer, s, e);
    ResolveAtSpan(content, |footer|, s, e);
    SliceSnoc(content, s + 1, e);
  }

  /** Lines with no whitespace at either end are left as they are by stripping. */
  lemma StripAllKeeps(lines: seq<string>)
    requires forall k :: 0 <= k < |lines| ==> Trimmed(lines[k])
    ensures StripAll(lines) == lines
  {
    forall k | 0 <= k < |lines| ensures StripAll(lines)[k] == lines[k] {
      StripSpec(lines[k]);
    }
  }

  /** A line with no whitespace at either end. */
  predicate Trimmed(line: string) {
    line == [] || (!IsSpace(line[0]) && !IsSpace(line[|line| - 1]))
  }

  /**
   * One resolved line `r` between a one-line header `h` and a one-line footer
   * `f`, after a first line `x`, comes out empty as written; the corrected
   * decision gives `[r]`.
   */
  lemma AsWrittenLosesOnlyLine(x: string, h: string, r: string, f: string)
    requires Trimmed(x) && Trimmed(h) && Trimmed(r) && Trimmed(f)
    requires x != h && f != x && f != h && f != r
    ensures ResolveSectionAsWritten([x, h, r, f], [h], [f]) == Resolved([])
    ensures ResolveSection([x, h, r, f], [h], [f]) == Resolved([r])
  {
    var content := [x, h, r, f];
    FourLinesFramed(x, h, r, f);
    ResolveSectionRecoversSpan(content, [h], [f], 1, 3);
    AsWrittenDropsLastLine(content, [h], [f], 1, 3);
    assert content[2..3] == [r];
  }

  lemma FourLinesFramed(x: string, h: string, r: string, f: string)
    requires Trimmed(x) && Trimmed(h) && Trimmed(r) && Trimmed(f)
    requires x != h && f != x && f != h && f != r
    ensures FramedLines([x, h, r, f], [h], [f], 1, 3)
  {
    StripAllKeeps([x, h, r, f]);
    StripAllKeeps([h]);
    StripAllKeeps([f]);
  }

  /** Both margins were found. */
  predicate Complete(ht: HeadTail) { ht.header.Some? && ht.footer.Some? }

  /** A missing header or footer is iterated as `None`, which raises. */
  function ResolveMarkers(content: seq<string>, ht: HeadTail): (r: Result<Resolution>)
    ensures r.Err? <==> !Complete(ht)
    ensures r.Err? ==> r.error == NoneNotIterable
  {
    if !Complete(ht) then Err(NoneNotIterable)
    else Ok(ResolveSectionAsWritten(content, ht.header.value, ht.footer.value))
  }

  /** The header and footer of every section, in order. */
  function HeadTails(sections: seq<seq<string>>): (hts: seq<HeadTail>)
    ensures |hts| == |sections|
    ensures forall k :: 0 <= k < |sections| ==> hts[k] == HeadTailOf(sections[k])
  {
    seq(|sections|, k requires 0 <= k < |sections| => HeadTailOf(sections[k]))
  }

  /**
   * A loop over `rs` that raises at the first error: the first `Err` in `rs`,
   * else all the values in order.
   */
  function Collect<T>(rs: seq<Result<T>>): (r: Result<seq<T>>)
    ensures r.Ok? ==> |r.value| == |rs|
  {
    if rs == [] then Ok([])
    else
      var n := |rs| - 1;
      var prev := Collect(rs[..n]);
      if prev.Err? then prev
      else if rs[n].Err? then Err(rs[n].error)
      else Ok(prev.value + [rs[n].value])
  }

  lemma CollectStep<T>(rs: seq<Result<T>>, n: nat)
    requires n < |rs|
    ensures var prev := Collect(rs[..n]);
      Collect(rs[..n + 1]) == if prev.Err? then prev else if rs[n].Err? then Err(rs[n].error) else Ok(prev.value + [rs[n].value])
  {
    PrefixStep(rs, n);
  }

  /** The collected result raises exactly when some element is an error, and then it is the first one. */
  lemma {:induction false} CollectRaisesFirst<T>(rs: seq<Result<T>>)
    ensures Collect(rs).Err? <==> exists k :: 0 <= k < |rs| && rs[k].Err?
    ensures Collect(rs).Err? ==> exists k :: 0 <= k < |rs| && rs[k].Err? && rs[k].error == Collect(rs).error && forall j :: 0 <= j < k ==> rs[j].Ok?
  {
    if rs != [] {
      var n := |rs| - 1;
      var front := rs[..n];
      CollectRaisesFirst(front);
      assert forall k :: 0 <= k < n ==> front[k] == rs[k];
    }
  }

  /** When nothing raises, the collected values are the elements' values, in order. */
  lemma {:induction false} CollectEach<T>(rs: seq<Result<T>>)
    requires Collect(rs).Ok?
    ensures forall k :: 0 <= k < |rs| ==> rs[k].Ok? && Collect(rs).value[k] == rs[k].value
  {
    if rs != [] {
      var n := |rs| - 1;
      var front := rs[..n];
      CollectEach(front);
      assert forall k :: 0 <= k < n ==> front[k] == rs[k];
    }
  }

  /** The outcome of each section on its own. */
  function ResolveEach(content: seq<string>, hts: seq<HeadTail>): (rs: seq<Result<Resolution>>)
    ensures |rs| == |hts|
    ensures forall k :: 0 <= k < |hts| ==> rs[k] == ResolveMarkers(content, hts[k])
  {
    seq(|hts|, k requires 0 <= k < |hts| => ResolveMarkers(content, hts[k]))
  }

  /** The resolutions of all sections, in order; the first section without a header or footer raises. */
  function ResolveAll(content: seq<string>, hts: seq<HeadTail>): Result<seq<Resolution>>
  {
    Collect(ResolveEach(content, hts))
  }

  /** Resolving all sections raises exactly when some section lacks its header or its footer, and what it raises is `TypeError`. */
  lemma ResolveAllRaises(content: seq<string>, hts: seq<HeadTail>)
    ensures ResolveAll(content, hts).Err? <==> exists k :: 0 <= k < |hts| && !Complete(hts[k])
    ensures ResolveAll(content, hts).Err? ==> ResolveAll(content, hts).error == NoneNotIterable
  {
    var rs := ResolveEach(content, hts);
    CollectRaisesFirst(rs);
    if exists k :: 0 <= k < |hts| && !Complete(hts[k]) {
      var k :| 0 <= k < |hts| && !Complete(hts[k]);
      assert rs[k].Err?;
    }
  }

  /** When nothing raises, each section's resolution is the one its own header and footer give. */
  lemma ResolveAllEach(content: seq<string>, hts: seq<HeadTail>)
    requires ResolveAll(content, hts).Ok?
    ensures |ResolveAll(content, hts).value| == |hts|
    ensures forall k :: 0 <= k < |hts| ==>
      Complete(hts[k]) && ResolveAll(content, hts).value[k] == ResolveSectionAsWritten(content, hts[k].header.value, hts[k].footer.value)
  {
    CollectEach(ResolveEach(content, hts));
  }

  /**
   * The whole loop on a framed merged file with one section: it returns the
   * span between header and footer without its last line.
   */
  lemma ResolveAllOfFramed(content: seq<string>, header: seq<string>, footer: seq<string>, s: nat, e: nat)
    requires FramedLines(content, header, footer, s, e) && s + 1 < e
    ensures ResolveAll(content, [HeadTail(Some(header), Some(footer))]) == Ok([Resolved(content[s + 1..e - 1])])
  {
    AsWrittenDropsLastLine(content, header, footer, s, e);
    ResolveAllOfOne(content, HeadTail(Some(header), Some(footer)));
  }

  /** With one section, the loop gives that section's outcome. */
  lemma ResolveAllOfOne(content: seq<string>, ht: HeadTail)
    ensures var r := ResolveMarkers(content, ht);
      ResolveAll(content, [ht]) == if r.Err? then Err(r.error) else Ok([r.value])
  {
    var rs := ResolveEach(content, [ht]);
    CollectStep(rs, 0);
    assert rs[..0] == [] && rs[..1] == rs;
    assert Collect(rs[..0]) == Ok([]);
    assert rs[0] == ResolveMarkers(content, ht);
    if rs[0].Ok? {
      assert [] + [rs[0].value] == [rs[0].value];
    }
  }

  /** The slice decision of one loop turn, once both match positions are known. */
  method ResolveAtPositions(content: seq<string>, footerLength: nat, startPos: nat, endPos: nat) returns (resolution: Resolution)
    ensures resolution == ResolveAtAsWritten(content, footerLength, startPos, endPos)
  {
    if startPos != 0 && endPos != 0 {
      var s := Min(startPos, |content|);
      var e := Max(endPos - footerLength, s);
      resolution := Resolved(Slice(content, s + 1, e));
    } else {
      resolution := NotFound;
    }
  }

  /** The per-section body of `get_resolved_contents`: match both margins and cut out what lies between. */
  method ResolveOne(content: seq<string>, header: seq<string>, footer: seq<string>) returns (resolution: Resolution)
    ensures resolution == ResolveSectionAsWritten(content, header, footer)
  {
    var startPos := GetMatchPosition(content, header);
    var endPos := GetMatchPosition(content, footer);
    resolution := ResolveAtPositions(content, |footer|, startPos, endPos);
  }

  /** The loop of `get_resolved_contents` over the sections' headers and footers. */
  method ResolveMarkersInOrder(content: seq<string>, markers: seq<HeadTail>) returns (r: Result<seq<Resolution>>)
    ensures r == ResolveAll(content, markers)
  {
    ghost var rs := ResolveEach(content, markers);
    var resolved: seq<Resolution> := [];
    var n := 0;
    while n < |markers|
      invariant 0 <= n <= |markers|
      invariant Collect(rs[..n]) == Ok(resolved)
    {
      CollectStep(rs, n);
      var header := markers[n].header;
      var footer := markers[n].footer;
      if header.None? || footer.None? {
        assert !Complete(markers[n]);
        ResolveAllRaises(content, markers);
        return Err(NoneNotIterable);
      }
      var resolution := ResolveOne(content, header.value, footer.value);
      resolved := resolved + [resolution];
      n := n + 1;
    }
    TakeAll(rs);
    r := Ok(resolved);
  }

  /**
   * `get_resolved_contents` after the merged file is fetched: `content` is that
   * file's lines. Returns the list the function evidently means to return.
   */
  method GetResolvedContents(content: seq<string>, sections: seq<seq<string>>) returns (r: Result<seq<Resolution>>)
    ensures r == ResolveAll(content, HeadTails(sections))
  {
    var markers := GetMarkerHeadTail(sections);
    assert markers == HeadTails(sections);
    r := ResolveMarkersInOrder(content, markers);
  }
}
