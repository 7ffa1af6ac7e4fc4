/**
 * The handful of Python `str` operations the scripts rely on, on `seq<char>`:
 * `startswith`, `in`, `strip()`, `strip('\n')`, `rfind`, `split(sep)`,
 * `split()`, `splitlines()` and `join`.
 */
module Text {

  /** Python's `str.isspace()` for one character: the set `strip()` and `split()` remove. */
  predicate IsSpace(c: char) {
    (9 <= c as int <= 13) || (28 <= c as int <= 32) || c as int == 0x85 || c as int == 0xA0
    || c as int == 0x1680 || (0x2000 <= c as int <= 0x200A) || c as int == 0x2028
    || c as int == 0x2029 || c as int == 0x202F || c as int == 0x205F || c as int == 0x3000
  }

  /** The characters `str.splitlines()` treats as line boundaries. */
  predicate IsLineBreak(c: char) {
    (10 <= c as int <= 13) || (28 <= c as int <= 30) || c as int == 0x85
    || c as int == 0x2028 || c as int == 0x2029
  }

  /** A word character of a regular expression's `\w`, restricted to ASCII. */
  predicate IsWordChar(c: char) {
    ('a' <= c <= 'z') || ('A' <= c <= 'Z') || ('0' <= c <= '9') || c == '_'
  }

  /** The character classes the trimming and searching helpers work with. */
  datatype CharClass = Whitespace | LineBreak | Newline | Word

  predicate InClass(cl: CharClass, c: char) {
    match cl
    case Whitespace => IsSpace(c)
    case LineBreak => IsLineBreak(c)
    case Newline => c == '\n'
    case Word => IsWordChar(c)
  }

  predicate NoSpace(s: string) { forall k :: 0 <= k < |s| ==> !IsSpace(s[k]) }

  /** A non-empty run of non-whitespace characters: what `split()` yields. */
  predicate IsToken(s: string) { s != [] && NoSpace(s) }

  predicate AllTokens(tokens: seq<string>) { forall k :: 0 <= k < |tokens| ==> IsToken(tokens[k]) }

  predicate NoLineBreak(s: string) { forall k :: 0 <= k < |s| ==> !IsLineBreak(s[k]) }

  /** `s.startswith(prefix)` */
  predicate StartsWith(s: string, prefix: string) {
    |prefix| <= |s| && s[..|prefix|] == prefix
  }

  /** `s.endswith(suffix)` */
  predicate EndsWith(s: string, suffix: string) {
    |suffix| <= |s| && s[|s| - |suffix|..] == suffix
  }

  predicate OccursAt(s: string, sub: string, i: int) {
    0 <= i <= |s| - |sub| && s[i..i + |sub|] == sub
  }

  /** `sub in s` */
  predicate Contains(s: string, sub: string) {
    exists i | 0 <= i <= |s| - |sub| :: OccursAt(s, sub, i)
  }

  lemma ContainsMiddle(a: string, b: string, c: string)
    ensures Contains(a + b + c, b)
  {
    assert (a + b + c)[|a|..|a| + |b|] == b;
    assert OccursAt(a + b + c, b, |a|);
  }

  lemma ContainsEmpty(s: string)
    ensures Contains(s, "")
  {
    assert OccursAt(s, "", 0);
  }

  /** Drops leading characters of class `cl`. */
  function TrimStart(s: string, cl: CharClass): (r: string)
    ensures |r| <= |s| && r == s[|s| - |r|..]
    ensures forall k :: 0 <= k < |s| - |r| ==> InClass(cl, s[k])
    ensures r != [] ==> !InClass(cl, r[0])
    decreases |s|
  {
    if s != [] && InClass(cl, s[0]) then TrimStart(s[1..], cl) else s
  }

  /** Drops trailing characters of class `cl`. */
  function TrimEnd(s: string, cl: CharClass): (r: string)
    ensures |r| <= |s| && r == s[..|r|]
    ensures forall k :: |r| <= k < |s| ==> InClass(cl, s[k])
    ensures r != [] ==> !InClass(cl, r[|r| - 1])
    decreases |s|
  {
    if s != [] && InClass(cl, s[|s| - 1]) then TrimEnd(s[..|s| - 1], cl) else s
  }

  /** `s.strip()`: drops leading whitespace, then trailing whitespace. */
  function Strip(s: string): (r: string)
    ensures |r| <= |s|
    decreases |s|
  {
    if s != [] && IsSpace(s[0]) then Strip(s[1..]) else TrimEnd(s, Whitespace)
  }

  lemma {:induction false} StripIsTrim(s: string)
    ensures Strip(s) == TrimEnd(TrimStart(s, Whitespace), Whitespace)
    decreases |s|
  {
    if s != [] && IsSpace(s[0]) {
      StripIsTrim(s[1..]);
    }
  }

  /** The stripped text neither starts nor ends with whitespace, and text that does neither is its own strip. */
  lemma StripSpec(s: string)
    ensures var r := Strip(s);
      && (r != [] ==> !IsSpace(r[0]) && !IsSpace(r[|r| - 1]))
      && (s == [] || (!IsSpace(s[0]) && !IsSpace(s[|s| - 1])) ==> r == s)
  {
    StripIsTrim(s);
  }

  /** A whitespace character added at the end makes no difference to `strip()`. */
  lemma {:induction false} StripIgnoresTrailingSpace(s: string, c: char)
    requires IsSpace(c)
    ensures Strip(s + [c]) == Strip(s)
    decreases |s|
  {
    var t := s + [c];
    if s != [] && IsSpace(s[0]) {
      assert t[1..] == s[1..] + [c];
      StripIgnoresTrailingSpace(s[1..], c);
    } else {
      assert t[..|t| - 1] == s;
    }
  }

  /** `s.strip('\n')` */
  function StripNewlines(s: string): (r: string)
    ensures |r| <= |s|
    ensures r != [] ==> r[0] != '\n' && r[|r| - 1] != '\n'
    ensures s == [] || (s[0] != '\n' && s[|s| - 1] != '\n') ==> r == s
  {
    TrimEnd(TrimStart(s, Newline), Newline)
  }

  /** Index of the first character satisfying `p`, or `|s|` when there is none. */
  function FindFirst(s: string, cl: CharClass): (i: nat)
    ensures i <= |s|
    ensures i < |s| ==> InClass(cl, s[i])
    ensures forall k :: 0 <= k < i ==> !InClass(cl, s[k])
  {
    if s == [] then 0 else if InClass(cl, s[0]) then 0 else 1 + FindFirst(s[1..], cl)
  }

  /** Index of the first occurrence of `x` in `s`, or `|s|` when there is none. */
  function FirstIndex<T(==)>(s: seq<T>, x: T): (i: nat)
    ensures i <= |s|
    ensures i < |s| ==> s[i] == x
    ensures forall k :: 0 <= k < i ==> s[k] != x
  {
    if s == [] then 0 else if s[0] == x then 0 else 1 + FirstIndex(s[1..], x)
  }

  /** `[line.strip() for line in lines]` */
  function StripAll(lines: seq<string>): (r: seq<string>)
    ensures |r| == |lines|
    ensures forall k :: 0 <= k < |lines| ==> r[k] == Strip(lines[k])
  {
    seq(|lines|, k requires 0 <= k < |lines| => Strip(lines[k]))
  }

  /** A non-empty sequence is its front followed by its last element. */
  lemma FrontLast<T>(s: seq<T>)
    requires s != []
    ensures s[..|s| - 1] + [s[|s| - 1]] == s
  {
  }

  /** Slicing a slice is slicing the whole. */
  lemma SliceOfSlice<T>(s: seq<T>, lo: nat, hi: nat, a: nat, b: nat)
    requires lo <= hi <= |s| && a <= b <= hi - lo
    ensures s[lo..hi][a..b] == s[lo + a..lo + b]
    ensures s[lo..hi][..b] == s[lo..lo + b]
    ensures s[lo..hi][a..] == s[lo + a..hi]
  {
    forall k | 0 <= k < b - a ensures s[lo..hi][a..b][k] == s[lo + a..lo + b][k] {
      assert s[lo..hi][a..b][k] == s[lo..hi][a + k];
    }
  }

  lemma TakeAll<T>(s: seq<T>)
    ensures s[..|s|] == s
  {
  }

  /** A prefix one element longer, cut back, is the shorter prefix. */
  lemma PrefixStep<T>(s: seq<T>, i: nat)
    requires i < |s|
    ensures s[..i + 1][..i] == s[..i] && s[..i + 1] == s[..i] + [s[i]]
  {
  }

  lemma SliceSnoc<T>(s: seq<T>, a: nat, b: nat)
    requires a < b <= |s|
    ensures s[a..b] == s[a..b - 1] + [s[b - 1]]
  {
  }

  /** Index of the first line that starts with `prefix`, or `|lines|` when there is none. */
  function FirstLineWith(lines: seq<string>, prefix: string): (k: nat)
    ensures k <= |lines|
    ensures k < |lines| ==> StartsWith(lines[k], prefix)
    ensures forall j :: 0 <= j < k ==> !StartsWith(lines[j], prefix)
  {
    if lines == [] then 0
    else if StartsWith(lines[0], prefix) then 0
    else 1 + FirstLineWith(lines[1..], prefix)
  }

  /** `s.rfind(c)` for one character: the last index holding `c`, or -1. */
  function RFind(s: string, c: char): (i: int)
    ensures -1 <= i < |s|
    ensures i >= 0 ==> s[i] == c
    ensures forall k :: i < k < |s| ==> s[k] != c
  {
    if s == [] then -1 else if s[|s| - 1] == c then |s| - 1 else RFind(s[..|s| - 1], c)
  }

  /** `s.split(sep)` for a one-character separator: never empty, no part holds `sep`. */
  function Split(s: string, sep: char): (r: seq<string>)
    ensures |r| >= 1
    ensures forall k :: 0 <= k < |r| ==> sep !in r[k]
    decreases |s|
  {
    var i := FirstIndex(s, sep);
    if i == |s| then [s] else [s[..i]] + Split(s[i + 1..], sep)
  }

  /** `sep.join(parts)` */
  function Join(parts: seq<string>, sep: string): string {
    if parts == [] then ""
    else if |parts| == 1 then parts[0]
    else parts[0] + sep + Join(parts[1..], sep)
  }

  /** Joining with an empty last part adds just one separator. */
  lemma {:induction false} JoinThenEmpty(parts: seq<string>, sep: string)
    requires parts != []
    ensures Join(parts + [""], sep) == Join(parts, sep) + sep
  {
    var more := parts + [""];
    assert more[1..] == parts[1..] + [""];
    if |parts| > 1 {
      JoinThenEmpty(parts[1..], sep);
    } else {
      assert more[1..] == [""];
    }
  }

  /** `''.join(parts)` */
  function Concat(parts: seq<string>): string {
    if parts == [] then "" else parts[0] + Concat(parts[1..])
  }

  /** `s.split()`: the maximal runs of non-whitespace, in order. */
  function Fields(s: string): (r: seq<string>)
    ensures forall k :: 0 <= k < |r| ==> r[k] != [] && NoSpace(r[k])
    decreases |s|
  {
    if s == [] then []
    else if IsSpace(s[0]) then Fields(s[1..])
    else
      var i := FindFirst(s, Whitespace);
      [s[..i]] + Fields(s[i..])
  }

  /** `s.splitlines()`: a line break ends a line (`\r\n` counts once); no empty line is added at the end. */
  function SplitLines(s: string): (r: seq<string>)
    ensures forall k :: 0 <= k < |r| ==> NoLineBreak(r[k])
    decreases |s|
  {
    if s == [] then []
    else
      var i := FindFirst(s, LineBreak);
      if i == |s| then [s]
      else
        var next := if s[i] == '\r' && i + 1 < |s| && s[i + 1] == '\n' then i + 2 else i + 1;
        [s[..i]] + SplitLines(s[next..])
  }

  /** Splitting what `Join` built on a separator none of the parts holds gives the parts back. */
  lemma {:induction false} SplitJoin(parts: seq<string>, sep: char)
    requires |parts| >= 1
    requires forall k :: 0 <= k < |parts| ==> sep !in parts[k]
    ensures Split(Join(parts, [sep]), sep) == parts
  {
    var p := parts[0];
    if |parts| == 1 {
      assert FirstIndex(p, sep) == |p|;
    } else {
      var rest := Join(parts[1..], [sep]);
      var s := p + [sep] + rest;
      assert Join(parts, [sep]) == s;
      assert s[|p|] == sep;
      assert forall k :: 0 <= k < |p| ==> s[k] == p[k];
      assert FirstIndex(s, sep) == |p|;
      assert s[..|p|] == p;
      assert s[|p| + 1..] == rest;
      SplitJoin(parts[1..], sep);
    }
  }

  /** `split()` ignores whitespace in front. */
  lemma {:induction false} FieldsSkipsSpaces(w: string, s: string)
    requires forall k :: 0 <= k < |w| ==> IsSpace(w[k])
    ensures Fields(w + s) == Fields(s)
    decreases |w|
  {
    if w != [] {
      assert (w + s)[1..] == w[1..] + s;
      FieldsSkipsSpaces(w[1..], s);
    } else {
      assert w + s == s;
    }
  }

  /** `split()` ignores whitespace at the end. */
  lemma {:induction false} FieldsIgnoreTrailingSpaces(u: string, w: string)
    requires forall k :: 0 <= k < |w| ==> IsSpace(w[k])
    ensures Fields(u + w) == Fields(u)
    decreases |u|
  {
    if u == [] {
      assert u + w == w + [];
      FieldsSkipsSpaces(w, []);
    } else if IsSpace(u[0]) {
      assert (u + w)[1..] == u[1..] + w;
      FieldsIgnoreTrailingSpaces(u[1..], w);
    } else {
      var j := FindFirst(u, Whitespace);
      var i := FindFirst(u + w, Whitespace);
      assert forall k :: 0 <= k < |u| ==> (u + w)[k] == u[k];
      assert i == j by {
        if j < |u| {
          assert IsSpace((u + w)[j]);
        } else if w != [] {
          assert IsSpace((u + w)[|u|]);
        }
      }
      assert (u + w)[..i] == u[..j];
      assert (u + w)[i..] == u[j..] + w;
      FieldsIgnoreTrailingSpaces(u[j..], w);
    }
  }

  /** What `TrimStart` drops is a run of such characters in front of what it keeps. */
  lemma TrimStartParts(s: string, cl: CharClass)
    ensures var t := TrimStart(s, cl); var w := s[..|s| - |t|];
      s == w + t && forall k :: 0 <= k < |w| ==> InClass(cl, w[k])
  {
  }

  /** What `TrimEnd` drops is a run of such characters after what it keeps. */
  lemma TrimEndParts(s: string, cl: CharClass)
    ensures var u := TrimEnd(s, cl); var v := s[|u|..];
      s == u + v && forall k :: 0 <= k < |v| ==> InClass(cl, v[k])
  {
    var u := TrimEnd(s, cl);
    var v := s[|u|..];
    assert u == s[..|u|];
    assert s == s[..|u|] + s[|u|..];
    forall k | 0 <= k < |v| ensures InClass(cl, v[k]) {
      assert v[k] == s[|u| + k];
    }
  }

  /** `s.strip().split() == s.split()` */
  lemma FieldsOfStrip(s: string)
    ensures Fields(Strip(s)) == Fields(s)
  {
    StripIsTrim(s);
    var t := TrimStart(s, Whitespace);
    TrimStartParts(s, Whitespace);
    FieldsSkipsSpaces(s[..|s| - |t|], t);
    var u := TrimEnd(t, Whitespace);
    TrimEndParts(t, Whitespace);
    FieldsIgnoreTrailingSpaces(u, t[|u|..]);
  }

  /** Joining non-empty whitespace-free tokens with single spaces and splitting again gives them back. */
  lemma {:induction false} FieldsJoin(tokens: seq<string>)
    requires forall k :: 0 <= k < |tokens| ==> tokens[k] != [] && NoSpace(tokens[k])
    ensures Fields(Join(tokens, " ")) == tokens
  {
    if tokens == [] {
    } else {
      var t := tokens[0];
      if |tokens| == 1 {
        assert FindFirst(t, Whitespace) == |t|;
        assert t[|t|..] == [];
        assert t[..|t|] == t;
      } else {
        var rest := Join(tokens[1..], " ");
        var s := t + " " + rest;
        assert Join(tokens, " ") == s;
        assert forall k :: 0 <= k < |t| ==> s[k] == t[k];
        assert IsSpace(s[|t|]);
        assert FindFirst(s, Whitespace) == |t|;
        assert s[..|t|] == t;
        assert s[|t|..] == " " + rest;
        FieldsSkipsSpaces(" ", rest);
        FieldsJoin(tokens[1..]);
      }
    }
  }
}
