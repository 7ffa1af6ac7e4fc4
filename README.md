# Merge-conflict dataset tools, modelled in Dafny

The repository collects merge conflicts and their resolutions as a dataset, and
replays a resolution diff onto a conflicted file. This project models its
line-oriented text processing. Every git call, file read and subprocess call is
replaced by a parameter: a list of lines, a tool's standard output, or a return
code.

| module (file) | models |
|---|---|
| `Wrappers` (wrappers.dfy) | `Option`, `Result`, and the exceptions the scripts raise, as values |
| `Text` (text.dfy) | the Python string operations used: `strip`, `split`, `split()`, `splitlines`, `rfind`, `startswith`, `in`, `join` |
| `Regions` (regions.dfy) | the margin clamp `max(0, s-m)` / `min(len, e+m+1)` and the widened window |
| `FormatPatchExtractor` (format_patch_extractor.dfy) | merge_conflict_extractor_with_format_patch.py: `get_commit_id`, `get_conflict_files`, `get_conflict_sections`, `output_conflict` |
| `ResolutionLocator` (resolution_locator.dfy) | `get_marker_head_tail`, `get_match_position`, and the per-section slice decision of `get_resolved_contents` (the same code in both extractors) |
| `PatchSequencer` (patch_sequencer.dfy) | the pooling of dated patches and their stable chronological sort |
| `ConflictExtractor` (conflict_extractor.dfy) | merge_conflict_extractor.py's own variants: the raising `get_commit_id` and the regular-expression `get_conflict_files` |
| `ConflictSolver` (conflict_solver.dfy) | merge_conflict_solver.py: the section scan, the diff check, `apply_diff`, `solve_merge_conflict` |
| `ExtractMergeConflicts` (extract_merge_conflicts.dfy) | extract_merge_conflicts.py: candidate files from porcelain status, the marker-anywhere scan, the widened slices |
| `GitUtil` (git_util.dfy) | GitUtil.py: the result and exception logic of `run_git_command`, `get_commit_parents`, `get_conflict_files` |

Each loop in the source is a `method` with loop invariants. The method is
proved equal to a specification function, and the properties are proved about
that function. Lines 35-80 of merge_conflict_extractor.py repeat lines 72-117
of the format-patch variant character for character, and lines 87-101 repeat
its lines 124-138. They are modelled once, and the table cites the format-patch
variant only. `Regions.Widen` also models the same clamp at lines 59-60 of
extract_merge_conflicts.py.

In these places the model follows the code as written:

- **Duplicate matches.** `get_match_position` breaks out of its inner loop at
  the first matching source line. A duplicated line therefore resolves to its
  earliest occurrence, not its latest (`EarliestDuplicateWins`).
- **A position of 0.** `if start_pos and end_pos` treats a match on line 0 as
  no match. The result is NOT FOUND, even when a header or footer really
  matched line 0, and even when the margin was empty.
- **A missing header or footer.** Iterating `None` raises `TypeError`. It is
  not mapped to NOT FOUND (`ResolveMarkers`, `ResolveAllRaises`).
- **The end of the resolved span.** It is `end_pos - len(footer)`, which loses
  a line. The loop of `get_resolved_contents` (`ResolveOne`,
  `ResolveMarkersInOrder`, `GetResolvedContents`) computes it that way, and
  `ResolveAllOfFramed` shows the loss for the whole loop. The corrected
  decision `ResolveSection` is kept beside it as the reference (see Findings).
- **A start marker on line 0.** Both extractors test the pending start by
  truthiness (`elif conflict_start and ...`), so a conflict whose start marker
  is on line 0 is never emitted (`LineZeroConflictIsDropped`). The solver and
  extract_merge_conflicts.py test `!= None` and accept it.

Three places cannot run as written. There the model follows the evident
intent:

- `get_marker_head_tail` never returns its list (line 105 falls off the end),
  so the model returns it.
- `get_resolved_contents` reads the undefined name `contents` at line 134,
  where `content` is meant, and never returns its list. The model uses
  `content` and returns the list.
- `output_conflict` passes a resolution to `f.write`, which accepts only text.
  The model takes each resolution as text.

## Model

| member | source | states |
|---|---|---|
| Regions.Widen | merge_conflict_extractor_with_format_patch.py:72-76 | the window starts at or before the start, at most `margin` lines earlier, and at 0 or exactly `margin` earlier; it ends at or before the file end and at most `margin+1` past the end line, exactly at one of the two; it contains the end line whenever that is in the file |
| Regions.WindowHoldsConflict | merge_conflict_extractor_with_format_patch.py:87-88 | the widened window holds the lines from the start marker to the end marker verbatim, at offset `start - lo` |
| FormatPatchExtractor.GetCommitId | merge_conflict_extractor_with_format_patch.py:29-36 | the scan that stops at the first `From ` line returns what `CommitIdOf` specifies: `None` without such a line, `IndexError` when it has one field only, otherwise its second field |
| FormatPatchExtractor.CommitIdIsSecondField | merge_conflict_extractor_with_format_patch.py:32-35 | the result is `None` exactly when no line starts with `From `; otherwise it is the second whitespace field of the first such line, non-empty and without whitespace |
| FormatPatchExtractor.ConflictFileOf | merge_conflict_extractor_with_format_patch.py:63-69 | a line yields a name exactly when its stripped form starts with `CONFLICT (content): Merge conflict in `; the name is non-empty, has no space and ends the stripped line |
| FormatPatchExtractor.ConflictFilesOf | merge_conflict_extractor_with_format_patch.py:62-69 | at most one name per line, each non-empty and space-free |
| FormatPatchExtractor.GetConflictFiles | merge_conflict_extractor_with_format_patch.py:59-70 | the loop returns `[]` for a missing result, otherwise the names of the stdout's `\n`-separated lines in order |
| FormatPatchExtractor.ConflictFilesOfReportLines | merge_conflict_extractor_with_format_patch.py:64-69 | report lines built from space-free names give back exactly those names, in order |
| FormatPatchExtractor.ConflictFilesRoundTrip | merge_conflict_extractor_with_format_patch.py:59-70 | the whole stdout of such a report, joined with newlines and split again, gives back the names |
| FormatPatchExtractor.EmptyReport | merge_conflict_extractor_with_format_patch.py:61-62 | empty output names no file |
| FormatPatchExtractor.MarkersExclusive | merge_conflict_extractor_with_format_patch.py:84-86 | no line starts with both markers |
| FormatPatchExtractor.PairsFrom | merge_conflict_extractor_with_format_patch.py:83-89 | the emitted pairs are in file order and do not overlap, each has start < end inside the file, none starts on line 0, and each starts at or after the scan position unless it closes the pending start |
| FormatPatchExtractor.ConflictPairs | merge_conflict_extractor_with_format_patch.py:82-89 | the pairs of a whole file are ordered and none starts on line 0 |
| FormatPatchExtractor.PairsFromSound | merge_conflict_extractor_with_format_patch.py:83-89 | every emitted pair is a start marker and an end marker with neither marker between them, and does not start on line 0 |
| FormatPatchExtractor.PairsFromComplete | merge_conflict_extractor_with_format_patch.py:83-89 | every such marked conflict not starting on line 0 is emitted |
| FormatPatchExtractor.ConflictPairsExactly | merge_conflict_extractor_with_format_patch.py:83-89 | a pair is emitted if and only if it is a marked conflict whose start is not line 0 |
| FormatPatchExtractor.LineZeroConflictIsDropped | merge_conflict_extractor_with_format_patch.py:86 | a well-formed conflict starting on line 0 is marked but yields no section |
| FormatPatchExtractor.GetConflictSections | merge_conflict_extractor_with_format_patch.py:78-90 | the loop returns one section per emitted pair, in order, each the widened window around its pair |
| FormatPatchExtractor.SectionHoldsConflict | merge_conflict_extractor_with_format_patch.py:87-88 | each section holds its start-marker line, its end-marker line and everything between, verbatim, at the offset the margin leaves |
| FormatPatchExtractor.OutputConflict | merge_conflict_extractor_with_format_patch.py:140-148 | the loop appends one fenced block per `zip` pair of sections and resolutions, in order |
| FormatPatchExtractor.RenderedStep | merge_conflict_extractor_with_format_patch.py:142-148 | the appended text is the first pair's block followed by the rest |
| FormatPatchExtractor.BlockRoundTrip | merge_conflict_extractor_with_format_patch.py:143-148 | a block is read back into the conflict text and the resolution text when the conflict text holds no backquote |
| FormatPatchExtractor.RenderedIsBlocks | merge_conflict_extractor_with_format_patch.py:140-148 | the appended text is the blocks of the `zip` pairs one after the other |
| FormatPatchExtractor.RenderedRoundTrip | merge_conflict_extractor_with_format_patch.py:140-148 | the appended text splits into one block per pair, each read back to its section's text and its resolution when the sections hold no backquote |
| FormatPatchExtractor.UnfenceRoundTrip | merge_conflict_extractor_with_format_patch.py:143-148 | the general form: text between an opening fence and a middle fence starting with a backquote is cut back out exactly |
| ResolutionLocator.LastStartBefore | merge_conflict_extractor_with_format_patch.py:99-101 | the header is cut at the last start marker before a given line, and no start marker lies between |
| ResolutionLocator.HeadTailOf | merge_conflict_extractor_with_format_patch.py:96-104 | the footer is missing exactly when no line starts with the end marker; a header ends just before a start-marker line; a footer begins just after an end-marker line |
| ResolutionLocator.MarkerHeadTail | merge_conflict_extractor_with_format_patch.py:97-104 | the scan with its `break` computes `HeadTailOf` of the section |
| ResolutionLocator.GetMarkerHeadTail | merge_conflict_extractor_with_format_patch.py:92-105 | one header/footer pair per section, in order |
| ResolutionLocator.HeadTailOfConflict | merge_conflict_extractor_with_format_patch.py:99-104 | with a start marker before the first end marker, the header is everything before the last such start and the footer everything after the first end |
| ResolutionLocator.HeadTailWithoutHeader | merge_conflict_extractor_with_format_patch.py:97-104 | without a start marker before the first end marker, the header stays `None` |
| ResolutionLocator.HeadTailOfWindow | merge_conflict_extractor_with_format_patch.py:87-104 | for a section emitted by the scan whose leading margin holds no end marker, the header is the leading margin and the footer the trailing margin |
| ResolutionLocator.NeighbourLosesHeader | merge_conflict_extractor_with_format_patch.py:75 | a margin that reaches into the previous conflict makes that conflict's markers the new section's header and footer boundaries, which the TODO leaves unhandled |
| ResolutionLocator.MaxFirst | merge_conflict_extractor_with_format_patch.py:107-117 | 0 for an empty target; otherwise 0 or an index of the source; at least the first matching index of every target line that matches; and equal to one of them unless 0 |
| ResolutionLocator.MatchPosition | merge_conflict_extractor_with_format_patch.py:107-117 | the match position on stripped lines is 0 for an empty target and otherwise 0 or below the source length |
| ResolutionLocator.FirstMatch | merge_conflict_extractor_with_format_patch.py:112-115 | the inner loop stops at the first source line whose stripped text equals the target line |
| ResolutionLocator.GetMatchPosition | merge_conflict_extractor_with_format_patch.py:107-117 | the nested loops compute `MatchPosition` |
| ResolutionLocator.EarliestDuplicateWins | merge_conflict_extractor_with_format_patch.py:115 | a target line that occurs twice in the source matches at its earlier occurrence |
| ResolutionLocator.MaxFirstOfRun | merge_conflict_extractor_with_format_patch.py:110-115 | a target that is a run of source lines, each first of its kind, matches at the run's last line |
| ResolutionLocator.Slice | merge_conflict_extractor_with_format_patch.py:136 | Python slicing: the real slice when the bounds are in order, empty when they cross or start past the end |
| ResolutionLocator.ResolveAtAsWritten | merge_conflict_extractor_with_format_patch.py:133-138 | NOT FOUND exactly when a position is 0; otherwise the lines right after the start position, as many as fit |
| ResolutionLocator.ResolveAt | merge_conflict_extractor_with_format_patch.py:133-138 | the corrected decision has the same NOT FOUND rule and the same shape |
| ResolutionLocator.ResolveSectionAsWritten | merge_conflict_extractor_with_format_patch.py:131-138 | NOT FOUND exactly when the header or the footer matches at position 0 |
| ResolutionLocator.ResolveSection | merge_conflict_extractor_with_format_patch.py:131-138 | the corrected per-section decision, with the same NOT FOUND rule |
| ResolutionLocator.FramedPositions | merge_conflict_extractor_with_format_patch.py:131-132 | in a merged file framed by the header and the footer, the header matches at its last line and the footer at its last line |
| ResolutionLocator.ResolveSectionRecoversSpan | merge_conflict_extractor_with_format_patch.py:133-136 | the corrected decision returns exactly the lines between header and footer |
| ResolutionLocator.AsWrittenDropsLastLine | merge_conflict_extractor_with_format_patch.py:135 | as written, the last line between header and footer is lost |
| ResolutionLocator.AsWrittenLosesOnlyLine | merge_conflict_extractor_with_format_patch.py:135 | a single resolved line comes out empty as written and as itself when corrected |
| ResolutionLocator.ResolveMarkers | merge_conflict_extractor_with_format_patch.py:129-138 | a missing header or footer raises `TypeError` from iterating `None`; otherwise the as-written slice decision |
| ResolutionLocator.CollectRaisesFirst | merge_conflict_extractor_with_format_patch.py:128-138 | the loop raises if and only if some section raises, and then with the first such section's error |
| ResolutionLocator.ResolveAllRaises | merge_conflict_extractor_with_format_patch.py:128-132 | resolving all sections raises exactly when some section lacks a header or a footer |
| ResolutionLocator.ResolveAllEach | merge_conflict_extractor_with_format_patch.py:128-138 | otherwise there is one resolution per section, in order, each the as-written decision for its header and footer |
| ResolutionLocator.ResolveAllOfFramed | merge_conflict_extractor_with_format_patch.py:128-138 | on a merged file framed by one section's header and footer, the loop returns the lines between them without the last one |
| ResolutionLocator.ResolveOne | merge_conflict_extractor_with_format_patch.py:131-138 | one loop iteration computes the as-written decision, with the end at `end_pos - len(footer)` |
| ResolutionLocator.ResolveMarkersInOrder | merge_conflict_extractor_with_format_patch.py:128-138 | the loop over the header/footer pairs computes `ResolveAll` |
| ResolutionLocator.GetResolvedContents | merge_conflict_extractor_with_format_patch.py:124-138 | the function resolves every section's header/footer pair against the merged file's lines |
| PatchSequencer.Lookup | merge_conflict_extractor_with_format_patch.py:201 | `patch_files.get(path)` is `None` exactly when no entry has the path, otherwise the date of such an entry |
| PatchSequencer.Assign | merge_conflict_extractor_with_format_patch.py:200 | `patch_files[path] = date` puts a new path last and leaves a known one in its place, with the order of paths unchanged |
| PatchSequencer.AssignFinds | merge_conflict_extractor_with_format_patch.py:200 | after the assignment the path maps to the new date |
| PatchSequencer.AssignElsewhere | merge_conflict_extractor_with_format_patch.py:200 | the assignment leaves the date of every other path unchanged |
| PatchSequencer.PoolPatches | merge_conflict_extractor_with_format_patch.py:195-200 | the loop over the upstream patches and then the downstream ones builds `Pool` of their concatenation |
| PatchSequencer.Dated | merge_conflict_extractor_with_format_patch.py:198-200 | every entry comes from a dated patch |
| PatchSequencer.PoolOfDistinct | merge_conflict_extractor_with_format_patch.py:195-200 | with no path repeated, the dictionary holds exactly the dated patches in glob order |
| PatchSequencer.PoolPaths | merge_conflict_extractor_with_format_patch.py:199-200 | a path never seen with a date is not in the dictionary |
| PatchSequencer.LaterDateWins | merge_conflict_extractor_with_format_patch.py:200 | a path dated twice keeps its first place and its last date |
| PatchSequencer.Insert | merge_conflict_extractor_with_format_patch.py:201 | inserting adds exactly the one entry (multiset) |
| PatchSequencer.InsertSorted | merge_conflict_extractor_with_format_patch.py:201 | insertion keeps the order sorted |
| PatchSequencer.SortByDate | merge_conflict_extractor_with_format_patch.py:201 | the result is sorted by date and a permutation of the input |
| PatchSequencer.SortIsStable | merge_conflict_extractor_with_format_patch.py:201 | entries sharing a date keep their relative order |
| PatchSequencer.SequencePatches | merge_conflict_extractor_with_format_patch.py:195-201 | the application order is the paths of the sorted pool |
| PatchSequencer.SequenceOfDistinct | merge_conflict_extractor_with_format_patch.py:195-201 | with distinct paths the order is sorted, a permutation of the dated upstream and downstream patches, and ties list upstream patches before downstream ones, each in glob order |
| PatchSequencer.UndatedDropped | merge_conflict_extractor_with_format_patch.py:199 | a patch whose date could not be read is not in the order |
| ConflictExtractor.CommitIdOrRaise | merge_conflict_extractor.py:19-24 | a result is a non-empty whitespace-free id; a failure is `ValueError` with the path in the message, or `IndexError` |
| ConflictExtractor.GetCommitId | merge_conflict_extractor.py:19-24 | the loop that returns from inside computes `CommitIdOrRaise` |
| ConflictExtractor.CommitIdVariantsAgree | merge_conflict_extractor.py:19-24 | the raising variant raises `ValueError` exactly where the format-patch variant returns `None`, `IndexError` exactly where it does, and otherwise returns the same id |
| ConflictExtractor.FindAll | merge_conflict_extractor.py:32 | no group of `Conflicts:\n\t(.*?)\n` holds a newline |
| ConflictExtractor.FindAllSound | merge_conflict_extractor.py:32 | every group occurs in the input right after `Conflicts:\n\t` and right before a newline |
| ConflictExtractor.FindAllNone | merge_conflict_extractor.py:32 | text without `Conflicts:\n\t` yields no group |
| ConflictExtractor.ConflictFilesOf | merge_conflict_extractor.py:30-33 | nothing unless stdout mentions both `Applying` and `Conflicts`; no name holds a newline |
| ConflictExtractor.FindAllReport | merge_conflict_extractor.py:32 | `findall` over a run of `Conflicts:\n\t<name>\n` entries gives back the names in order, then goes on with the text after the run |
| ConflictExtractor.FindAllSkips | merge_conflict_extractor.py:32 | text without `Conflicts:\n\t`, followed by text starting with `C`, starts no match and does not disturb the matches after it |
| ConflictExtractor.ConflictFilesRoundTrip | merge_conflict_extractor.py:30-33 | output that mentions `Applying`, then a non-empty report, with no other `Conflicts:\n\t` before or after it, gives back exactly the report's names |
| ConflictSolver.MarkersExclusive | merge_conflict_solver.py:29-31 | no line starts with both markers |
| ConflictSolver.SectionsFrom | merge_conflict_solver.py:28-34 | the pairs are in file order, do not overlap, and have start < end inside the file |
| ConflictSolver.ConflictedSections | merge_conflict_solver.py:24-36 | the pairs of a whole file are ordered |
| ConflictSolver.GetConflictedSections | merge_conflict_solver.py:24-36 | the loop computes `ConflictedSections` |
| ConflictSolver.SectionsFromSound | merge_conflict_solver.py:28-34 | every pair is a `<<<<<<< ` line and a `>>>>>>> ` line with neither marker between |
| ConflictSolver.SectionsFromComplete | merge_conflict_solver.py:28-34 | every such marked pair is found, line 0 included |
| ConflictSolver.ConflictedSectionsExactly | merge_conflict_solver.py:24-36 | a pair is found if and only if it is marked; a start on line 0 is accepted |
| ConflictSolver.StripMarkers | merge_conflict_solver.py:39 | the marker substitution never lengthens a line |
| ConflictSolver.StripMarkersKeepsPlain | merge_conflict_solver.py:39 | a line with none of `<`, `=`, `>` is unchanged |
| ConflictSolver.StripAfterOpenRun | merge_conflict_solver.py:39 | an opening run is removed together with the whitespace and the word after it |
| ConflictSolver.StripOpeningLine | merge_conflict_solver.py:39 | a `<<<<<<< branch` line strips to its line end alone |
| ConflictSolver.DiffKey | merge_conflict_solver.py:40 | the key of a diff line has no newline at either end |
| ConflictSolver.MatchesDiffExactly | merge_conflict_solver.py:38-45 | the `any(...)` holds if and only if some diff line's key occurs in the concatenated stripped section, so an empty diff matches nothing |
| ConflictSolver.BlankDiffLineMatchesAll | merge_conflict_solver.py:40-42 | a diff line whose key is empty matches every section |
| ConflictSolver.ResolvedLine | merge_conflict_solver.py:52-55 | a resolved line has no newline at either end |
| ConflictSolver.ResolvedLines | merge_conflict_solver.py:50-57 | one resolved line per diff line, in order |
| ConflictSolver.ResolvedLineKinds | merge_conflict_solver.py:52-55 | a `+` line loses its `+`, a `-` line keeps its `-`, other lines are kept |
| ConflictSolver.ApplyDiff | merge_conflict_solver.py:47-59 | the loop computes `ResolvedLines` of the diff; the section is not used |
| ConflictSolver.Replacement | merge_conflict_solver.py:84-90 | an unmatched section is kept; a matched one becomes the `apply_diff` output, one resolved line per diff line, in order |
| ConflictSolver.ReplaceSection | merge_conflict_solver.py:84-90 | one branch of the loop computes `Replacement` |
| ConflictSolver.SpliceIdentity | merge_conflict_solver.py:75-93 | when every section is replaced by itself, the splice is the original file |
| ConflictSolver.SpliceKeepsTail | merge_conflict_solver.py:93 | the lines after the last section end the result |
| ConflictSolver.SpliceKeepsEnds | merge_conflict_solver.py:78-93 | the result starts with the lines before the first section and ends with the lines after the last |
| ConflictSolver.SpliceOne | merge_conflict_solver.py:78-93 | with one section the result is prefix, replacement, suffix |
| ConflictSolver.ReplaceSections | merge_conflict_solver.py:73-93 | the loop over ordered sections splices each section's `Replacement` between the untouched stretches, then appends the tail |
| ConflictSolver.Solve | merge_conflict_solver.py:94-95 | with no sections the file is returned unchanged |
| ConflictSolver.SolveMergeConflict | merge_conflict_solver.py:64-97 | the loop computes `Solve` |
| ConflictSolver.UnmatchedDiffChangesNothing | merge_conflict_solver.py:75-93 | if no section matches the diff, the output equals the input |
| ConflictSolver.EmptyDiffChangesNothing | merge_conflict_solver.py:38-45 | an empty diff changes nothing |
| ConflictSolver.SolveOneSection | merge_conflict_solver.py:75-93 | a file with one section becomes prefix, replacement of the section, suffix |
| ConflictSolver.SolveKeepsEnds | merge_conflict_solver.py:78-93 | the lines before the first and after the last section are kept in place |
| ExtractMergeConflicts.Candidate | extract_merge_conflicts.py:24-27 | a line contributes at most one name, free of spaces |
| ExtractMergeConflicts.CandidateFilesOf | extract_merge_conflicts.py:23-27 | at most one name per line, none holding a space |
| ExtractMergeConflicts.CandidateOf | extract_merge_conflicts.py:24-27 | one iteration of the loop computes `Candidate` |
| ExtractMergeConflicts.GetConflictCandidateFiles | extract_merge_conflicts.py:19-28 | the loop computes the candidates of the status text |
| ExtractMergeConflicts.CandidateOfEntry | extract_merge_conflicts.py:24-27 | a status line yields its path exactly when its state is `UU`, and nothing for any other state, ` M` and `M ` included |
| ExtractMergeConflicts.CandidateFilesRoundTrip | extract_merge_conflicts.py:19-28 | porcelain output whose `UU` paths hold no space gives back exactly the `UU` paths, in order, whatever the other entries' states and paths; this holds both for the newline-terminated text git prints, whose `split('\n')` ends in an empty line that names nothing, and for the lines joined without the final newline |
| ExtractMergeConflicts.PathCutAtSpace | extract_merge_conflicts.py:25-27 | a path with a space is reported only up to that space |
| ExtractMergeConflicts.CandidatesAgreeWithGitUtil | extract_merge_conflicts.py:19-28 | on well-formed output whose `UU` paths hold no space this scan and GitUtil's parser give the same list, with or without the final newline |
| ExtractMergeConflicts.PositionsFrom | extract_merge_conflicts.py:37-43 | the recorded pairs are in file order, do not overlap, and have start < end inside the file |
| ExtractMergeConflicts.ConflictPositions | extract_merge_conflicts.py:30-45 | the pairs of a file are ordered, and an empty file has none |
| ExtractMergeConflicts.ExtractConflictLinePositionSections | extract_merge_conflicts.py:30-45 | the loop computes `ConflictPositions` |
| ExtractMergeConflicts.PositionsFromSound | extract_merge_conflicts.py:37-43 | every recorded pair is a line holding the start marker and a later line holding the end marker but not the start marker, with neither marker between |
| ExtractMergeConflicts.PositionsFromComplete | extract_merge_conflicts.py:37-43 | every such enclosed pair is recorded |
| ExtractMergeConflicts.ConflictPositionsExactly | extract_merge_conflicts.py:37-43 | a pair is recorded if and only if it is enclosed; markers count anywhere in a line, a start wins over an end on the same line, and line 0 is accepted |
| ExtractMergeConflicts.ExtractConflictSections | extract_merge_conflicts.py:54-62 | one widened slice per recorded pair, in order |
| ExtractMergeConflicts.SectionHoldsConflict | extract_merge_conflicts.py:58-61 | each slice holds its marker lines and everything between verbatim; a conflict on line 0 is sliced from line 0 |
| GitUtil.RunGitCommand | GitUtil.py:20-29 | an exception exactly on a non-zero return code, naming the space-joined command and the stripped stderr; otherwise the stripped stdout, whatever `combineStdErr` says |
| GitUtil.MessageNamesCommand | GitUtil.py:25 | the failure message contains the command and the stripped stderr |
| GitUtil.GetCommitParents | GitUtil.py:39-44 | success exactly when the command succeeds with at least two whitespace fields; the result is all of them; otherwise the command's exception or the not-a-merge-commit exception |
| GitUtil.ParentsRoundTrip | GitUtil.py:40-44 | space-separated parents, newline-terminated, are read back unchanged |
| GitUtil.SingleParentRefused | GitUtil.py:42-43 | one parent raises the not-a-merge-commit exception |
| GitUtil.UnmergedPaths | GitUtil.py:112 | each name is what follows `UU ` on some line, at most one per line |
| GitUtil.GetConflictFiles | GitUtil.py:110-113 | an exception exactly on a non-zero return code; otherwise the `UU ` lines of the stripped output, without their first three characters |
| GitUtil.SplitLinesJoin | GitUtil.py:112 | `splitlines` gives back non-empty lines joined by newlines |
| GitUtil.StatusTextStripsLead | GitUtil.py:106-112 | when the first state starts with whitespace (` M`), `strip()` removes that one character and nothing else |
| GitUtil.StrippedLeadUnmerged | GitUtil.py:110-113 | that shortened first line is never taken for a `UU` line, so the `UU` paths are still found exactly |
| GitUtil.PorcelainIsTerminated | GitUtil.py:105-106 | the porcelain text (each entry's line ended by a newline) is the newline-joined lines plus one final newline, or empty when there are no entries |
| GitUtil.ConflictFilesRoundTrip | GitUtil.py:105-113 | well-formed porcelain output gives back exactly the `UU` paths, in order, with or without the final newline, inner spaces included and a leading ` M` state included |
| Text.StripSpec | merge_conflict_extractor_with_format_patch.py:63 | a stripped string neither starts nor ends with whitespace, and a string already so is unchanged |
| Text.Split | merge_conflict_extractor_with_format_patch.py:62 | `split(sep)` gives at least one part and no part holds the separator |
| Text.SplitJoin | extract_merge_conflicts.py:23-25 | splitting what `join` built on a separator none of the parts holds gives the parts back |
| Text.StripIgnoresTrailingSpace | GitUtil.py:26 | a whitespace character added at the end, such as porcelain's final newline, does not change `strip()` |
| Text.Fields | merge_conflict_extractor_with_format_patch.py:34 | `split()` gives non-empty, whitespace-free fields |
| Text.FieldsOfStrip | GitUtil.py:41 | `s.strip().split() == s.split()` |
| Text.FieldsJoin | GitUtil.py:41 | fields joined with single spaces split back into themselves |
| Text.SplitLines | GitUtil.py:112 | no line that `splitlines` gives holds a line break |
| Text.RFind | merge_conflict_extractor_with_format_patch.py:65 | `rfind` gives -1 or the last index of the character |

## Left out

- Running git: `apply_patch`, `abort_patch` with their timeouts, `git rev-list` and `git show` in `get_resolved_contents`, `format-patch`, `create_target_repo`, `get_tail_commit`. Their outputs and return codes are parameters.
- git2patch.py and list-merge-conflict.py. They consist of git command sequencing with no computation of their own.
- The GitUtil methods that only name a git command (`get_merge_commits`, `get_current_head`, `get_current_branch`, stash, checkout, reset, branch and merge helpers). Their logic is `run_git_command`, which is modelled.
- File reading and writing, `argparse` and printing. The functions take and return line lists and strings instead. `os.path.exists` in `read_file` is not modelled.
- `get_patch_date`, which is defined twice (lines 22-27 and 171-181; the second definition is the one in effect) and parses the date with `datetime.strptime`. A parsed date is an optional integer timestamp on each patch.
- The order in which `Path.glob` lists a directory. The patch lists are inputs.
- Regular expressions beyond the two used. `\w` is the ASCII word class, `\s` is Python's whitespace, and `re.sub` is modelled for the one pattern of merge_conflict_solver.py:39. Non-ASCII word characters are not.
- A negative `--margin` or margin argument: margins are natural numbers.
- Regions.Widen: does not exclude a neighbouring conflict from the margin. This follows the source, which leaves it as a TODO at merge_conflict_extractor_with_format_patch.py:75 (see `NeighbourLosesHeader`).
- GitUtil.ConflictFilesRoundTrip: stated only for paths with no line break and no trailing whitespace, and for a first state that is not two whitespace characters. `splitlines()` cuts a path at a line break, `strip()` drops a last path's trailing whitespace, and after an all-whitespace first state `strip()` eats into the first path.
- ExtractMergeConflicts.CandidateFilesRoundTrip: stated only for output with no newline in any state or path, and no space in a `UU` path. A `UU` path with a space is cut (`PathCutAtSpace`); paths in other states may hold spaces.
- ConflictSolver.StripMarkers: its contract bounds the length only. Its behaviour is pinned down by the lemmas `StripMarkersKeepsPlain`, `StripAfterOpenRun` and `StripOpeningLine`, not by a full regular-expression semantics.

## Findings

| source | as written | input that shows it | evidently intended | confidence | as-written member | corrected member |
|---|---|---|---|---|---|---|
| merge_conflict_extractor_with_format_patch.py:135 | `end_pos = max(end_pos - len(footer), start_pos)`. `end_pos` is the index of the footer's last line, so subtracting the footer's length points one line before the footer and the slice `content[start_pos+1:end_pos]` drops the last resolved line | merged file `[x, h, r, f]` with header `[h]` and footer `[f]`: the resolution comes out `[]` | `end_pos - len(footer) + 1`, the footer's first line, giving `[r]`, the lines between header and footer | not executed | ResolutionLocator.ResolveSectionAsWritten, ResolutionLocator.AsWrittenLosesOnlyLine, ResolutionLocator.AsWrittenDropsLastLine, ResolutionLocator.ResolveAllOfFramed | ResolutionLocator.ResolveSection, ResolutionLocator.ResolveSectionRecoversSpan |
