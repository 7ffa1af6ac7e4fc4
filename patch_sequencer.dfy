/**
 * The chronological ordering of patches in merge_conflict_extractor_with_format_patch.py:
 * the patches of the upstream directory and then of the downstream directory
 * are pooled into a dictionary from path to timestamp, skipping those whose
 * date could not be read, and the paths are listed by ascending timestamp with
 * a stable sort. A timestamp is an integer standing for the parsed date.
 */
module PatchSequencer {
  import opened Wrappers

  /** A `.patch` file as globbed, with the date read from its `Date: ` header, if any. */
  datatype PatchFile = PatchFile(path: string, date: Option<int>)

  /** One entry of the dictionary `patch_files`. */
  datatype Entry = Entry(path: string, date: int)

  // ---------------------------------------------------------------------------
  // The dictionary

  /** `patch_files.get(path)`: the timestamp stored for `path`, if any. */
  function Lookup(entries: seq<Entry>, path: string): (r: Option<int>)
    ensures r.None? <==> forall k :: 0 <= k < |entries| ==> entries[k].path != path
    ensures r.Some? ==> exists k :: 0 <= k < |entries| && entries[k] == Entry(path, r.value)
  {
    if entries == [] then None
    else if entries[0].path == path then Some(entries[0].date)
    else
      var r := Lookup(entries[1..], path);
      assert forall k :: 0 < k < |entries| ==> entries[k] == entries[1..][k - 1];
      r
  }

  /**
   * `patch_files[path] = date`: a new path goes to the end of the insertion
   * order, a known path keeps its place and takes the new timestamp.
   */
  function Assign(entries: seq<Entry>, path: string, date: int): (r: seq<Entry>)
    ensures Lookup(entries, path).None? ==> r == entries + [Entry(path, date)]
    ensures Lookup(entries, path).Some? ==> |r| == |entries| && forall k :: 0 <= k < |r| ==> r[k].path == entries[k].path
  {
    if entries == [] then [Entry(path, date)]
    else
      var rest := entries[1..];
      assert entries == [entries[0]] + rest;
      LookupCons(entries[0], rest);
      if entries[0].path == path then [Entry(path, date)] + rest
      else [entries[0]] + Assign(rest, path, date)
  }

  /** After the assignment the path maps to the new timestamp. */
  lemma {:induction false} AssignFinds(entries: seq<Entry>, path: string, date: int)
    ensures Lookup(Assign(entries, path, date), path) == Some(date)
  {
    if entries == [] {
      LookupCons(Entry(path, date), []);
      assert [Entry(path, date)] + [] == [Entry(path, date)];
    } else {
      var rest := entries[1..];
      if entries[0].path == path {
        LookupCons(Entry(path, date), rest);
      } else {
        AssignFinds(rest, path, date);
        LookupCons(entries[0], Assign(rest, path, date));
      }
    }
  }

  /** Assigning to one path leaves the timestamp of every other path as it was. */
  lemma {:induction false} AssignElsewhere(entries: seq<Entry>, path: string, date: int, q: string)
    requires q != path
    ensures Lookup(Assign(entries, path, date), q) == Lookup(entries, q)
  {
    if entries != [] {
      var rest := entries[1..];
      assert entries == [entries[0]] + rest;
      LookupCons(entries[0], rest);
      if entries[0].path == path {
        LookupCons(Entry(path, date), rest);
      } else {
        AssignElsewhere(rest, path, date, q);
        LookupCons(entries[0], Assign(rest, path, date));
      }
    } else {
      LookupCons(Entry(path, date), []);
      assert [Entry(path, date)] + [] == [Entry(path, date)];
    }
  }

  /** The dictionary with `e` in front is looked up at `e` first, then in the rest. */
  lemma LookupCons(e: Entry, rest: seq<Entry>)
    ensures forall q :: Lookup([e] + rest, q) == if e.path == q then Some(e.date) else Lookup(rest, q)
  {
    assert ([e] + rest)[1..] == rest;
  }

  /** The dictionary after the pooling loop has seen `patches`, in order. */
  function Pool(patches: seq<PatchFile>): (r: seq<Entry>)
    ensures |r| <= |patches|
  {
    if patches == [] then []
    else
      var n := |patches| - 1;
      var prev := Pool(patches[..n]);
      if patches[n].date.Some? then Assign(prev, patches[n].path, patches[n].date.value) else prev
  }

  /** The dated patches, in order, as entries: what the pool holds when no path repeats. */
  function Dated(patches: seq<PatchFile>): (r: seq<Entry>)
    ensures |r| <= |patches|
    ensures forall k :: 0 <= k < |r| ==> exists j :: 0 <= j < |patches| && patches[j] == PatchFile(r[k].path, Some(r[k].date))
  {
    if patches == [] then []
    else
      var n := |patches| - 1;
      var prev := Dated(patches[..n]);
      assert forall j :: 0 <= j < n ==> patches[..n][j] == patches[j];
      if patches[n].date.Some? then prev + [Entry(patches[n].path, patches[n].date.value)] else prev
  }

  predicate DistinctPaths(patches: seq<PatchFile>) {
    forall i, j :: 0 <= i < j < |patches| ==> patches[i].path != patches[j].path
  }

  lemma PoolStep(patches: seq<PatchFile>, n: nat)
    requires n < |patches|
    ensures var prev := Pool(patches[..n]);
      Pool(patches[..n + 1]) == if patches[n].date.Some? then Assign(prev, patches[n].path, patches[n].date.value) else prev
  {
    assert patches[..n + 1][..n] == patches[..n];
  }

  /** No patch carries path `q` with a readable date. */
  predicate NeverDated(patches: seq<PatchFile>, q: string) {
    forall j :: 0 <= j < |patches| ==> patches[j].path != q || patches[j].date.None?
  }

  lemma NeverDatedPrefix(patches: seq<PatchFile>, n: nat, q: string)
    requires n <= |patches| && NeverDated(patches, q)
    ensures NeverDated(patches[..n], q)
  {
    assert forall j :: 0 <= j < n ==> patches[..n][j] == patches[j];
  }

  /** Every path in the pool is a path of a dated patch. */
  lemma {:induction false} PoolPaths(patches: seq<PatchFile>, q: string)
    requires NeverDated(patches, q)
    ensures Lookup(Pool(patches), q).None?
  {
    if patches != [] {
      var n := |patches| - 1;
      NeverDatedPrefix(patches, n, q);
      PoolPaths(patches[..n], q);
      if patches[n].date.Some? {
        AssignElsewhere(Pool(patches[..n]), patches[n].path, patches[n].date.value, q);
      }
    }
  }

  /** With no path repeated, the pool holds the dated patches in their order. */
  lemma {:induction false} PoolOfDistinct(patches: seq<PatchFile>)
    requires DistinctPaths(patches)
    ensures Pool(patches) == Dated(patches)
  {
    if patches != [] {
      var n := |patches| - 1;
      var front := patches[..n];
      assert DistinctPaths(front);
      PoolOfDistinct(front);
      if patches[n].date.Some? {
        PoolPaths(front, patches[n].path);
      }
    }
  }

  /** A patch dated twice under the same path keeps its first place and its last timestamp. */
  lemma LaterDateWins(p: string, d1: int, d2: int)
    ensures Pool([PatchFile(p, Some(d1)), PatchFile(p, Some(d2))]) == [Entry(p, d2)]
  {
    var patches := [PatchFile(p, Some(d1)), PatchFile(p, Some(d2))];
    assert patches[..1] == [PatchFile(p, Some(d1))];
    assert patches[..1][..0] == [];
  }

  /** The pooling loop over the upstream patches and then the downstream ones. */
  method PoolPatches(upstream: seq<PatchFile>, downstream: seq<PatchFile>) returns (entries: seq<Entry>)
    ensures entries == Pool(upstream + downstream)
  {
    var patches := upstream + downstream;
    entries := [];
    var n := 0;
    while n < |patches|
      invariant 0 <= n <= |patches|
      invariant entries == Pool(patches[..n])
    {
      PoolStep(patches, n);
      if patches[n].date.Some? {
        entries := Assign(entries, patches[n].path, patches[n].date.value);
      }
      n := n + 1;
    }
    assert patches[..n] == patches;
  }

  // ---------------------------------------------------------------------------
  // `sorted(patch_files.keys(), key=patch_files.get)`

  predicate Sorted(entries: seq<Entry>) {
    forall i, j :: 0 <= i < j < |entries| ==> entries[i].date <= entries[j].date
  }

  /** Places `x` before the first entry that is not earlier than it. */
  function Insert(x: Entry, entries: seq<Entry>): (r: seq<Entry>)
    ensures multiset(r) == multiset(entries) + multiset{x}
  {
    if entries == [] || x.date <= entries[0].date then [x] + entries
    else
      assert entries == [entries[0]] + entries[1..];
      [entries[0]] + Insert(x, entries[1..])
  }

  /** Inserting an entry no earlier than `lo` among entries no earlier than `lo` keeps them all no earlier than `lo`. */
  lemma {:induction false} InsertAbove(x: Entry, entries: seq<Entry>, lo: int)
    requires lo <= x.date && forall k :: 0 <= k < |entries| ==> lo <= entries[k].date
    ensures forall k :: 0 <= k < |Insert(x, entries)| ==> lo <= Insert(x, entries)[k].date
  {
    if entries != [] && entries[0].date < x.date {
      InsertAbove(x, entries[1..], lo);
      var rest := Insert(x, entries[1..]);
      assert forall k :: 0 < k <= |rest| ==> ([entries[0]] + rest)[k] == rest[k - 1];
    }
  }

  lemma {:induction false} InsertSorted(x: Entry, entries: seq<Entry>)
    requires Sorted(entries)
    ensures Sorted(Insert(x, entries))
  {
    if entries != [] && entries[0].date < x.date {
      var tail := entries[1..];
      InsertSorted(x, tail);
      InsertAbove(x, tail, entries[0].date);
      var rest := Insert(x, tail);
      assert forall k :: 0 < k <= |rest| ==> ([entries[0]] + rest)[k] == rest[k - 1];
    }
  }

  /** A stable sort of the entries by ascending timestamp. */
  function SortByDate(entries: seq<Entry>): (r: seq<Entry>)
    ensures Sorted(r)
    ensures multiset(r) == multiset(entries)
  {
    if entries == [] then []
    else
      assert entries == [entries[0]] + entries[1..];
      var rest := SortByDate(entries[1..]);
      InsertSorted(entries[0], rest);
      Insert(entries[0], rest)
  }

  /** The entries with timestamp `t`, in order. */
  function WithDate(entries: seq<Entry>, t: int): (r: seq<Entry>)
    ensures |r| <= |entries|
    ensures forall k :: 0 <= k < |r| ==> r[k].date == t
  {
    if entries == [] then []
    else
      (if entries[0].date == t then [entries[0]] else []) + WithDate(entries[1..], t)
  }

  lemma {:induction false} WithDateOfInsert(x: Entry, entries: seq<Entry>, t: int)
    ensures WithDate(Insert(x, entries), t) == if x.date == t then [x] + WithDate(entries, t) else WithDate(entries, t)
  {
    if entries == [] || x.date <= entries[0].date {
      assert ([x] + entries)[1..] == entries;
    } else {
      WithDateOfInsert(x, entries[1..], t);
      assert ([entries[0]] + Insert(x, entries[1..]))[1..] == Insert(x, entries[1..]);
    }
  }

  /** Stability: the entries sharing a timestamp come out in the order they went in. */
  lemma {:induction false} SortIsStable(entries: seq<Entry>, t: int)
    ensures WithDate(SortByDate(entries), t) == WithDate(entries, t)
  {
    if entries != [] {
      SortIsStable(entries[1..], t);
      WithDateOfInsert(entries[0], SortByDate(entries[1..]), t);
    }
  }

  lemma {:induction false} WithDateAppend(a: seq<Entry>, b: seq<Entry>, t: int)
    ensures WithDate(a + b, t) == WithDate(a, t) + WithDate(b, t)
  {
    if a == [] {
      assert a + b == b;
    } else {
      var ab := a + b;
      assert ab[0] == a[0] && ab[1..] == a[1..] + b;
      WithDateAppend(a[1..], b, t);
    }
  }

  lemma {:induction false} DatedAppend(a: seq<PatchFile>, b: seq<PatchFile>)
    ensures Dated(a + b) == Dated(a) + Dated(b)
  {
    if b == [] {
      assert a + b == a;
    } else {
      var n := |b| - 1;
      var ab := a + b;
      assert ab[..|ab| - 1] == a + b[..n];
      assert ab[|ab| - 1] == b[n];
      DatedAppend(a, b[..n]);
    }
  }

  // ---------------------------------------------------------------------------
  // The ordering as a whole

  function PathsOf(entries: seq<Entry>): (r: seq<string>)
    ensures |r| == |entries|
    ensures forall k :: 0 <= k < |entries| ==> r[k] == entries[k].path
  {
    seq(|entries|, k requires 0 <= k < |entries| => entries[k].path)
  }

  /** The patch paths in the order they are applied. */
  method SequencePatches(upstream: seq<PatchFile>, downstream: seq<PatchFile>) returns (order: seq<string>)
    ensures order == PathsOf(SortByDate(Pool(upstream + downstream)))
  {
    var entries := PoolPatches(upstream, downstream);
    order := PathsOf(SortByDate(entries));
  }

  /**
   * With no path repeated (the two directories are distinct), the ordering is
   * a permutation of the dated patches, by ascending timestamp, and the patches
   * sharing a timestamp come out as the upstream ones in directory order and
   * then the downstream ones in directory order.
   */
  lemma SequenceOfDistinct(upstream: seq<PatchFile>, downstream: seq<PatchFile>, t: int)
    requires DistinctPaths(upstream + downstream)
    ensures var sorted := SortByDate(Pool(upstream + downstream));
      && Sorted(sorted)
      && multiset(sorted) == multiset(Dated(upstream) + Dated(downstream))
      && WithDate(sorted, t) == WithDate(Dated(upstream), t) + WithDate(Dated(downstream), t)
  {
    PoolOfDistinct(upstream + downstream);
    DatedAppend(upstream, downstream);
    SortIsStable(Pool(upstream + downstream), t);
    WithDateAppend(Dated(upstream), Dated(downstream), t);
  }

  /** A patch whose date could not be read is not in the ordering. */
  lemma UndatedDropped(upstream: seq<PatchFile>, downstream: seq<PatchFile>, j: nat)
    requires DistinctPaths(upstream + downstream)
    requires j < |upstream + downstream| && (upstream + downstream)[j].date.None?
    ensures (upstream + downstream)[j].path !in PathsOf(SortByDate(Pool(upstream + downstream)))
  {
    var patches := upstream + downstream;
    var sorted := SortByDate(Pool(patches));
    var dated := Dated(patches);
    PoolOfDistinct(patches);
    forall k | 0 <= k < |sorted| ensures sorted[k].path != patches[j].path {
      assert sorted[k] in multiset(dated);
      var i :| 0 <= i < |dated| && dated[i] == sorted[k];
      var m :| 0 <= m < |patches| && patches[m] == PatchFile(dated[i].path, Some(dated[i].date));
      assert m != j;
    }
  }
}
