/**
 * Conflict regions as pairs of line indices (the line of the start marker and
 * the line of the end marker), and the margin window the extractors cut around one.
 */
module Regions {

  /** `[start, end]`: the start-marker line and the end-marker line of one conflict. */
  type Pair = (nat, nat)

  /** Every pair lies in a file of `n` lines with its start before its end, and each pair ends before any later one starts. */
  predicate Ordered(pairs: seq<Pair>, n: nat) {
    && (forall k :: 0 <= k < |pairs| ==> pairs[k].0 < pairs[k].1 < n)
    && (forall i, j :: 0 <= i < j < |pairs| ==> pairs[i].1 < pairs[j].0)
  }

  /**
   * The widened window `[lo, hi)` around the pair `start..end` in a file of
   * `count` lines: `margin` extra lines on each side, cut off at the file bounds.
   * Nothing keeps it out of a neighbouring conflict.
   */
  function Widen(count: nat, start: nat, end: nat, margin: nat): (w: (nat, nat))
    ensures w.0 <= start && start - w.0 <= margin
    ensures w.0 == 0 || w.0 == start - margin
    ensures w.1 <= count && w.1 <= end + margin + 1
    ensures w.1 == count || w.1 == end + margin + 1
    ensures end < count ==> end < w.1
  {
    var lo := if start < margin then 0 else start - margin;
    var hi := if count < end + margin + 1 then count else end + margin + 1;
    (lo, hi)
  }

  /** The lines of the widened window around pair `p`. */
  function Window(lines: seq<string>, p: Pair, margin: nat): seq<string>
    requires p.0 <= p.1 < |lines|
  {
    var w := Widen(|lines|, p.0, p.1, margin);
    lines[w.0..w.1]
  }

  /** A window holds the whole conflict, from its start-marker line to its end-marker line, verbatim. */
  lemma WindowHoldsConflict(lines: seq<string>, p: Pair, margin: nat)
    requires p.0 <= p.1 < |lines|
    ensures var lo := Widen(|lines|, p.0, p.1, margin).0;
      Window(lines, p, margin)[p.0 - lo..p.1 + 1 - lo] == lines[p.0..p.1 + 1]
  {
    var w := Widen(|lines|, p.0, p.1, margin);
    var window := lines[w.0..w.1];
    var part := window[p.0 - w.0..p.1 + 1 - w.0];
    assert |part| == |lines[p.0..p.1 + 1]|;
    forall k | 0 <= k < |part| ensures part[k] == lines[p.0..p.1 + 1][k] {
      assert part[k] == window[p.0 - w.0 + k] == lines[p.0 + k];
    }
    assert part == lines[p.0..p.1 + 1];
  }
}
