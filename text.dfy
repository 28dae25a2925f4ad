/**
 * The Python string operations the scripts rely on, on `string` (a sequence of characters):
 * `in` and `find`, `split(sep)`, `sep.join`, `strip`/`lstrip`/`rstrip`, the whitespace `split()`,
 * `replace`, ASCII `lower`, decimal rendering, and the subset of `str.format` the scripts use.
 */
module Text {
  import opened Outcomes

  /** `p` occurs in `s` starting at index `i`. */
  predicate OccursAt(s: string, p: string, i: int) {
    0 <= i && i + |p| <= |s| && s[i..i + |p|] == p
  }

  predicate StartsWith(s: string, p: string) {
    |p| <= |s| && s[..|p|] == p
  }

  predicate EndsWith(s: string, p: string) {
    |p| <= |s| && s[|s| - |p|..] == p
  }

  /** The first index at or after `k` at which `p` occurs in `s`. */
  function FindFrom(s: string, p: string, k: nat): (r: Option<nat>)
    ensures r.Some? ==> k <= r.value && OccursAt(s, p, r.value)
    ensures r.Some? ==> forall j :: k <= j < r.value ==> !OccursAt(s, p, j)
    ensures r.None? ==> forall j :: k <= j ==> !OccursAt(s, p, j)
    decreases |s| - k
  {
    if k + |p| > |s| then None
    else if s[k..k + |p|] == p then Some(k)
    else FindFrom(s, p, k + 1)
  }

  /** Python's `s.find(p)`, with `None` for `-1`; `s.index(p)` raises where this is `None`. */
  function Find(s: string, p: string): (r: Option<nat>)
    ensures r.Some? ==> OccursAt(s, p, r.value) && forall j :: 0 <= j < r.value ==> !OccursAt(s, p, j)
    ensures r.None? <==> forall j :: !OccursAt(s, p, j)
  {
    FindFrom(s, p, 0)
  }

  /** Python's `p in s` on strings. */
  predicate Contains(s: string, p: string) {
    Find(s, p).Some?
  }

  lemma ContainsIff(s: string, p: string)
    ensures Contains(s, p) <==> exists i :: OccursAt(s, p, i)
  {
  }

  lemma OccursContains(s: string, p: string, i: int)
    requires OccursAt(s, p, i)
    ensures Contains(s, p)
  {
  }

  /** For a one-character pattern, substring search is character membership. */
  lemma {:induction false} ContainsChar(s: string, c: char)
    ensures Contains(s, [c]) <==> c in s
  {
    if c in s {
      var i :| 0 <= i < |s| && s[i] == c;
      assert OccursAt(s, [c], i);
    }
    if Contains(s, [c]) {
      var i := Find(s, [c]).value;
      assert s[i..i + 1] == [c];
      assert s[i] == c;
    }
  }

  /** A pattern holding a character the text lacks does not occur in it. */
  lemma {:induction false} MissingCharNotContained(s: string, p: string, c: char)
    requires c in p && c !in s
    ensures !Contains(s, p)
  {
  }

  /** An occurrence inside a slice is an occurrence in the whole. */
  lemma {:induction false} ContainsSlice(s: string, lo: nat, hi: nat, p: string)
    requires lo <= hi <= |s| && Contains(s[lo..hi], p)
    ensures Contains(s, p)
  {
    var i := Find(s[lo..hi], p).value;
    SliceOfSlice(s, lo, hi, i, i + |p|);
    assert OccursAt(s, p, lo + i);
  }

  lemma SliceOfSlice(s: string, lo: nat, hi: nat, i: nat, j: nat)
    requires lo <= hi <= |s| && i <= j <= hi - lo
    ensures s[lo..hi][i..j] == s[lo + i..lo + j]
  {
    assert forall k :: 0 <= k < j - i ==> s[lo..hi][i..j][k] == s[lo + i + k];
  }

  /**
   * Neither part holds `p` and the second starts with a character foreign to `p`:
   * then no occurrence straddles the seam, so the concatenation does not hold `p` either.
   */
  lemma {:induction false} NotContainedConcat(a: string, b: string, p: string)
    requires !Contains(a, p) && !Contains(b, p)
    requires b != [] && b[0] !in p
    ensures !Contains(a + b, p)
  {
    if Contains(a + b, p) {
      var s := a + b;
      var i := Find(s, p).value;
      assert s[i..i + |p|] == p;
      if i + |p| <= |a| {
        SliceOfFront(a, b, i, i + |p|);
        OccursContains(a, p, i);
      } else if i >= |a| {
        SliceOfBack(a, b, i, i + |p|);
        OccursContains(b, p, i - |a|);
      } else {
        StraddleHolds(a, b, p, i);
      }
    }
  }

  /** An occurrence straddling the seam of `a + b` holds the first character of `b`. */
  lemma StraddleHolds(a: string, b: string, p: string, i: nat)
    requires i < |a| < i + |p| && OccursAt(a + b, p, i)
    ensures b[0] in p
  {
    var k := |a| - i;
    assert p[k] == (a + b)[i..i + |p|][k] == (a + b)[|a|] == b[0];
  }

  /** A slice lying inside the first part of a concatenation is a slice of that part. */
  lemma SliceOfFront(a: string, b: string, lo: nat, hi: nat)
    requires lo <= hi <= |a|
    ensures (a + b)[lo..hi] == a[lo..hi]
  {
  }

  /** A slice lying inside the second part of a concatenation is a slice of that part. */
  lemma SliceOfBack(a: string, b: string, lo: nat, hi: nat)
    requires |a| <= lo <= hi <= |a| + |b|
    ensures (a + b)[lo..hi] == b[lo - |a|..hi - |a|]
  {
  }

  /**
   * If `p` does not occur in `a` followed by all but the last character of `p`, the first
   * occurrence of `p` in `a + p + b` is the one right after `a`.
   */
  lemma {:induction false} FindAfterPrefix(a: string, p: string, b: string)
    requires p != [] && !Contains(a + p[..|p| - 1], p)
    ensures Find(a + p + b, p) == Some(|a|)
  {
    var s := a + p + b;
    assert s[|a|..|a| + |p|] == p;
    assert OccursAt(s, p, |a|);
    var i := Find(s, p).value;
    if i < |a| {
      EarlierInside(a, p, b, i);
    }
  }

  /** An occurrence starting inside `a` ends before the last character of the `p` after it. */
  lemma EarlierInside(a: string, p: string, b: string, i: nat)
    requires p != [] && i < |a| && OccursAt(a + p + b, p, i)
    ensures Contains(a + p[..|p| - 1], p)
  {
    var t := a + p[..|p| - 1];
    var u := [p[|p| - 1]] + b;
    assert p == p[..|p| - 1] + [p[|p| - 1]];
    assert a + p + b == t + u;
    SliceOfFront(t, u, i, i + |p|);
    assert OccursAt(t, p, i);
  }

  /** Python's `sep.join(parts)`. */
  function Join(parts: seq<string>, sep: string): string
  {
    if |parts| == 0 then ""
    else if |parts| == 1 then parts[0]
    else parts[0] + sep + Join(parts[1..], sep)
  }

  /** Joining splits at any inner position into two joins around one separator. */
  lemma {:induction false} JoinAt(parts: seq<string>, sep: string, k: nat)
    requires 0 < k < |parts|
    ensures Join(parts, sep) == Join(parts[..k], sep) + sep + Join(parts[k..], sep)
  {
    if k > 1 {
      JoinAt(parts[1..], sep, k - 1);
      assert parts[1..][..k - 1] == parts[..k][1..];
      assert parts[1..][k - 1..] == parts[k..];
    } else {
      assert parts[..1] == [parts[0]];
    }
  }

  /** Python's `s.split(sep)` for a non-empty separator: the pieces between non-overlapping occurrences, scanned left to right. */
  function Split(s: string, sep: string): (parts: seq<string>)
    requires sep != ""
    ensures |parts| >= 1
    ensures Join(parts, sep) == s
    decreases |s|
  {
    match Find(s, sep)
    case None => [s]
    case Some(i) =>
      var rest := Split(s[i + |sep|..], sep);
      assert s[..i] + sep + s[i + |sep|..] == s by {
        assert s[i..i + |sep|] == sep;
        assert s == s[..i] + s[i..i + |sep|] + s[i + |sep|..];
      }
      assert ([s[..i]] + rest)[1..] == rest;
      [s[..i]] + rest
  }

  /** One step of a split: the text before the first separator, then the split of what follows it. */
  lemma SplitStep(s: string, sep: string, i: nat)
    requires sep != "" && Find(s, sep) == Some(i)
    ensures Split(s, sep) == [s[..i]] + Split(s[i + |sep|..], sep)
  {
  }

  /** No piece of a split holds the separator. */
  lemma {:induction false} SplitPiecesFree(s: string, sep: string)
    requires sep != ""
    ensures forall k :: 0 <= k < |Split(s, sep)| ==> !Contains(Split(s, sep)[k], sep)
    decreases |s|
  {
    match Find(s, sep)
    case None =>
    case Some(i) =>
      SplitStep(s, sep, i);
      NoEarlierOccurrence(s, sep, i);
      SplitPiecesFree(s[i + |sep|..], sep);
  }

  /** The text before the first occurrence of a pattern holds no occurrence of it. */
  lemma {:induction false} NoEarlierOccurrence(s: string, p: string, i: nat)
    requires p != "" && Find(s, p) == Some(i)
    ensures !Contains(s[..i], p)
  {
    if Contains(s[..i], p) {
      var j := Find(s[..i], p).value;
      assert s[..i][j..j + |p|] == s[j..j + |p|];
      assert OccursAt(s, p, j);
    }
  }

  /** The pieces of a split on a one-character separator: one more than its occurrences, none if absent. */
  lemma {:induction false} SplitSingle(s: string, sep: string)
    requires sep != ""
    ensures |Split(s, sep)| == 1 <==> !Contains(s, sep)
    ensures !Contains(s, sep) ==> Split(s, sep) == [s]
  {
  }

  /** The first piece of a split is the text before the first occurrence of the separator (or all of it). */
  lemma {:induction false} SplitFirst(s: string, sep: string)
    requires sep != ""
    ensures Find(s, sep).Some? ==> Split(s, sep)[0] == s[..Find(s, sep).value]
    ensures Find(s, sep).None? ==> Split(s, sep)[0] == s
  {
  }

  /** Splitting a join on a character none of the parts holds gives the parts back. */
  lemma {:induction false} SplitJoin(parts: seq<string>, c: char)
    requires |parts| >= 1
    requires forall k :: 0 <= k < |parts| ==> c !in parts[k]
    ensures Split(Join(parts, [c]), [c]) == parts
    decreases |parts|
  {
    ContainsChar(parts[0], c);
    if |parts| == 1 {
      SplitSingle(parts[0], [c]);
    } else {
      var rest := Join(parts[1..], [c]);
      var s := parts[0] + [c] + rest;
      assert [c][..0] == [];
      assert parts[0] + [c][..0] == parts[0];
      FindAfterPrefix(parts[0], [c], rest);
      SplitStep(s, [c], |parts[0]|);
      assert s[..|parts[0]|] == parts[0];
      assert s[|parts[0]| + 1..] == rest;
      SplitJoin(parts[1..], c);
      assert parts == [parts[0]] + parts[1..];
    }
  }

  /** The last piece of `s.split(sep)`, Python's `s.split(sep)[-1]`. */
  function LastPiece(s: string, sep: string): string
    requires sep != ""
  {
    var parts := Split(s, sep);
    parts[|parts| - 1]
  }

  /** All pieces of `s.split(sep)` but the last, joined again: `sep.join(s.split(sep)[:-1])`. */
  function DropLast(s: string, sep: string): string
    requires sep != ""
  {
    var parts := Split(s, sep);
    Join(parts[..|parts| - 1], sep)
  }

  /**
   * The last piece of a split is a separator-free suffix of the text, and when it is not all of
   * the text the separator sits right before it.
   */
  lemma SplitLast(s: string, sep: string)
    requires sep != ""
    ensures EndsWith(s, LastPiece(s, sep))
    ensures !Contains(LastPiece(s, sep), sep)
    ensures |LastPiece(s, sep)| < |s| ==> EndsWith(s[..|s| - |LastPiece(s, sep)|], sep)
  {
    var last := LastPiece(s, sep);
    SplitPiecesFree(s, sep);
    SplitFrontLast(s, sep);
    if |Split(s, sep)| > 1 {
      var front := DropLast(s, sep);
      assert s[|s| - |last|..] == last;
      assert s[..|s| - |last|] == front + sep;
    }
  }

  /** The text is the join of all pieces but the last, the separator, and the last piece. */
  lemma SplitFrontLast(s: string, sep: string)
    requires sep != ""
    ensures |Split(s, sep)| == 1 ==> s == LastPiece(s, sep)
    ensures |Split(s, sep)| > 1 ==> s == DropLast(s, sep) + sep + LastPiece(s, sep)
  {
    var parts := Split(s, sep);
    if |parts| > 1 {
      JoinLast(parts, sep);
    }
  }

  /** Joining splits off the last part after one separator. */
  lemma JoinLast(parts: seq<string>, sep: string)
    requires |parts| >= 2
    ensures Join(parts, sep) == Join(parts[..|parts| - 1], sep) + sep + parts[|parts| - 1]
  {
    JoinAt(parts, sep, |parts| - 1);
    assert parts[|parts| - 1..] == [parts[|parts| - 1]];
  }

  /**
   * Joining all pieces but the last of a split on a character `c` gives the text up to its last
   * `c`: that `c` follows the result and no `c` comes after it. With no `c` the result is empty.
   */
  lemma DropLastPiece(s: string, c: char)
    ensures c !in s ==> DropLast(s, [c]) == ""
    ensures c in s ==> |DropLast(s, [c])| < |s| && s[..|DropLast(s, [c])|] == DropLast(s, [c])
    ensures c in s ==> s[|DropLast(s, [c])|] == c && c !in s[|DropLast(s, [c])| + 1..]
  {
    var parts := Split(s, [c]);
    var n := |parts|;
    var last := LastPiece(s, [c]);
    var r := DropLast(s, [c]);
    SplitPiecesFree(s, [c]);
    assert !Contains(last, [c]);
    ContainsChar(last, c);
    SplitFrontLast(s, [c]);
    if n == 1 {
      assert parts[..0] == [];
    } else {
      LastSeparator(s, r, c, last);
    }
  }

  lemma LastSeparator(s: string, r: string, c: char, last: string)
    requires s == r + [c] + last && c !in last
    ensures c in s && |r| < |s| && s[..|r|] == r && s[|r|] == c && s[|r| + 1..] == last
  {
    assert s[|r|] == c;
    assert s[..|r|] == r;
    assert s[|r| + 1..] == last;
  }

  /** Regrouping a concatenation. */
  lemma Assoc<T>(a: seq<T>, b: seq<T>, c: seq<T>)
    ensures a + b + c == a + (b + c)
  {
  }

  /** Python's `s.lstrip(chars)`. */
  function TrimLeft(s: string, cs: set<char>): (r: string)
    ensures |r| <= |s| && r == s[|s| - |r|..]
    ensures forall i :: 0 <= i < |s| - |r| ==> s[i] in cs
    ensures r != [] ==> r[0] !in cs
    decreases |s|
  {
    if s != [] && s[0] in cs then TrimLeft(s[1..], cs) else s
  }

  /** Python's `s.rstrip(chars)`. */
  function TrimRight(s: string, cs: set<char>): (r: string)
    ensures |r| <= |s| && r == s[..|r|]
    ensures forall i :: |r| <= i < |s| ==> s[i] in cs
    ensures r != [] ==> r[|r| - 1] !in cs
    decreases |s|
  {
    if s != [] && s[|s| - 1] in cs then TrimRight(s[..|s| - 1], cs) else s
  }

  /** `r` sits in `s` at index `i`, with only characters of `cs` before and after it. */
  predicate Trimmed(s: string, i: int, r: string, cs: set<char>) {
    0 <= i && i + |r| <= |s| && s[i..i + |r|] == r &&
    (forall k :: 0 <= k < i ==> s[k] in cs) && (forall k :: i + |r| <= k < |s| ==> s[k] in cs)
  }

  /** Python's `s.strip(chars)`: the longest slice whose ends are outside `chars`, everything around it in `chars`. */
  function Strip(s: string, cs: set<char>): (r: string)
    ensures |r| <= |s|
    ensures r != [] ==> r[0] !in cs && r[|r| - 1] !in cs
    ensures Trimmed(s, |s| - |TrimLeft(s, cs)|, r, cs)
  {
    var t := TrimLeft(s, cs);
    var r := TrimRight(t, cs);
    TrimBoth(s, cs, t, r);
    r
  }

  /** Trimming the left end, then the right, leaves a slice with only characters of `cs` around it. */
  lemma TrimBoth(s: string, cs: set<char>, t: string, r: string)
    requires |t| <= |s| && t == s[|s| - |t|..] && (forall k :: 0 <= k < |s| - |t| ==> s[k] in cs) && (t != [] ==> t[0] !in cs)
    requires |r| <= |t| && r == t[..|r|] && (forall k :: |r| <= k < |t| ==> t[k] in cs) && (r != [] ==> r[|r| - 1] !in cs)
    ensures |r| <= |s|
    ensures r != [] ==> r[0] !in cs && r[|r| - 1] !in cs
    ensures Trimmed(s, |s| - |t|, r, cs)
  {
    var i := |s| - |t|;
    assert t == s[i..];
    assert r == t[..|r|];
    assert s[i..i + |r|] == r;
    forall k | i + |r| <= k < |s|
      ensures s[k] in cs
    {
      assert s[k] == t[k - i];
    }
    if r != [] {
      assert r[0] == t[0];
    }
  }

  /** Text whose first and last characters are outside `cs` is left alone by stripping them. */
  lemma StripKeeps(s: string, cs: set<char>)
    requires s != [] ==> s[0] !in cs && s[|s| - 1] !in cs
    ensures Strip(s, cs) == s && TrimRight(s, cs) == s && TrimLeft(s, cs) == s
  {
  }

  /** The characters Python 2 `str.strip()` and `bytes.split()` treat as whitespace. */
  const AsciiWhitespace: set<char> := {' ', '\t', '\n', '\r', '\U{B}', '\U{C}'}

  /** The characters Python 3 `str.strip()` and `str.split()` treat as whitespace. */
  const UnicodeWhitespace: set<char> := AsciiWhitespace + {
    '\U{1C}', '\U{1D}', '\U{1E}', '\U{1F}', '\U{85}', '\U{A0}', '\U{1680}',
    '\U{2000}', '\U{2001}', '\U{2002}', '\U{2003}', '\U{2004}', '\U{2005}', '\U{2006}',
    '\U{2007}', '\U{2008}', '\U{2009}', '\U{200A}', '\U{2028}', '\U{2029}', '\U{202F}',
    '\U{205F}', '\U{3000}'}

  /** Length of the leading run of characters outside `ws`. */
  function RunLength(s: string, ws: set<char>): (n: nat)
    ensures n <= |s| && forall i :: 0 <= i < n ==> s[i] !in ws
    ensures n < |s| ==> s[n] in ws
    decreases |s|
  {
    if s == [] || s[0] in ws then 0 else 1 + RunLength(s[1..], ws)
  }

  /** No character of `w` is in `ws`. */
  predicate Solid(w: string, ws: set<char>) {
    forall i :: 0 <= i < |w| ==> w[i] !in ws
  }

  /** Python's `s.split()` with no argument: the maximal runs of non-whitespace characters, in order. */
  function Words(s: string, ws: set<char>): (w: seq<string>)
    ensures forall k :: 0 <= k < |w| ==> w[k] != "" && Solid(w[k], ws)
    decreases |s|
  {
    var t := TrimLeft(s, ws);
    if t == [] then []
    else
      var n := RunLength(t, ws);
      var rest := Words(t[n..], ws);
      LeadingWord(t, n, ws, rest);
      [t[..n]] + rest
  }

  /** The leading run of a text starting outside `ws`, put before solid words, gives solid words. */
  lemma LeadingWord(t: string, n: nat, ws: set<char>, rest: seq<string>)
    requires t != [] && t[0] !in ws && n <= |t| && (n < |t| ==> t[n] in ws)
    requires forall i :: 0 <= i < n ==> t[i] !in ws
    requires forall k :: 0 <= k < |rest| ==> rest[k] != "" && Solid(rest[k], ws)
    ensures var w := [t[..n]] + rest; forall k :: 0 <= k < |w| ==> w[k] != "" && Solid(w[k], ws)
  {
    var w := [t[..n]] + rest;
    assert n > 0;
    forall k | 0 <= k < |w| ensures w[k] != "" && Solid(w[k], ws) {
      if k > 0 {
        assert w[k] == rest[k - 1];
      }
    }
  }

  /** A text made of one solid word followed by whitespace and more text splits into that word and the rest's words. */
  lemma {:induction false} WordsCons(w: string, gap: string, rest: string, ws: set<char>)
    requires w != [] && Solid(w, ws)
    requires gap != [] && forall i :: 0 <= i < |gap| ==> gap[i] in ws
    ensures Words(w + gap + rest, ws) == [w] + Words(gap + rest, ws)
  {
    var tail := gap + rest;
    var s := w + tail;
    assert w + gap + rest == s;
    assert s[0] == w[0];
    assert TrimLeft(s, ws) == s;
    assert tail[0] == gap[0];
    RunLengthOf(w, tail, ws);
    assert s[..|w|] == w;
    assert s[|w|..] == tail;
  }

  lemma {:induction false} RunLengthOf(w: string, t: string, ws: set<char>)
    requires Solid(w, ws) && t != [] && t[0] in ws
    ensures RunLength(w + t, ws) == |w|
    decreases |w|
  {
    if w != [] {
      assert (w + t)[1..] == w[1..] + t;
      RunLengthOf(w[1..], t, ws);
    } else {
      assert w + t == t;
    }
  }

  /** Leading whitespace does not change the words. */
  lemma {:induction false} WordsSkip(gap: string, rest: string, ws: set<char>)
    requires forall i :: 0 <= i < |gap| ==> gap[i] in ws
    ensures Words(gap + rest, ws) == Words(rest, ws)
    decreases |gap|
  {
    if gap != [] {
      assert (gap + rest)[1..] == gap[1..] + rest;
      WordsSkip(gap[1..], rest, ws);
    } else {
      assert gap + rest == rest;
    }
  }

  /** A solid word alone is its own single word. */
  lemma {:induction false} WordsSingle(w: string, ws: set<char>)
    requires w != [] && Solid(w, ws)
    ensures Words(w, ws) == [w]
  {
    assert TrimLeft(w, ws) == w;
    assert w[..|w|] == w;
    assert Words(w[|w|..], ws) == [];
  }

  /** Python's `s.replace(pat, with)`: every non-overlapping occurrence, left to right; an empty pattern inserts `with` around every character. */
  function Replace(s: string, pat: string, with: string): string
    decreases |s|
  {
    if pat == "" then Interleave(s, with)
    else match Find(s, pat)
      case None => s
      case Some(i) => s[..i] + with + Replace(s[i + |pat|..], pat, with)
  }

  /** `with` before, between and after every character of `s`. */
  function Interleave(s: string, with: string): (r: string)
    ensures |r| == |s| + (|s| + 1) * |with|
  {
    if s == [] then with else with + [s[0]] + Interleave(s[1..], with)
  }

  /** Replacing a non-empty pattern is splitting on it and joining with the replacement. */
  lemma {:induction false} ReplaceIsSplitJoin(s: string, pat: string, with: string)
    requires pat != ""
    ensures Replace(s, pat, with) == Join(Split(s, pat), with)
    decreases |s|
  {
    match Find(s, pat)
    case None =>
    case Some(i) =>
      var t := s[i + |pat|..];
      ReplaceIsSplitJoin(t, pat, with);
      assert Split(s, pat) == [s[..i]] + Split(t, pat);
      assert ([s[..i]] + Split(t, pat))[1..] == Split(t, pat);
  }

  /** ASCII lower-casing of one character (`bytes.lower`). */
  function LowerChar(c: char): char {
    if 'A' <= c <= 'Z' then (c as int + 32) as char else c
  }

  /** ASCII lower-casing, character by character. */
  function Lower(s: string): (r: string)
    ensures |r| == |s| && forall i :: 0 <= i < |s| ==> r[i] == LowerChar(s[i])
  {
    seq(|s|, i requires 0 <= i < |s| => LowerChar(s[i]))
  }

  predicate IsDigit(c: char) {
    '0' <= c <= '9'
  }

  predicate AllDigits(s: string) {
    forall i :: 0 <= i < |s| ==> IsDigit(s[i])
  }

  function Digit(d: nat): (c: char)
    requires d < 10
    ensures IsDigit(c) && c as int - '0' as int == d
  {
    (d + '0' as int) as char
  }

  /** Python's `str(n)` / `"{}".format(n)` on a natural number: its decimal digits, without leading zeros. */
  function NatToString(n: nat): (s: string)
    ensures s != [] && AllDigits(s)
    ensures s[0] == '0' ==> n == 0 && s == "0"
  {
    if n < 10 then [Digit(n)] else NatToString(n / 10) + [Digit(n % 10)]
  }

  /** Python's `int(s)` on a string of decimal digits. */
  function DecimalValue(s: string): nat
    requires AllDigits(s)
  {
    if s == [] then 0 else 10 * DecimalValue(s[..|s| - 1]) + (s[|s| - 1] as int - '0' as int)
  }

  /** Reading back the decimal rendering of a number gives the number. */
  lemma {:induction false} DecimalRoundTrip(n: nat)
    ensures DecimalValue(NatToString(n)) == n
  {
    if n >= 10 {
      DecimalRoundTrip(n / 10);
      var s := NatToString(n);
      assert s[..|s| - 1] == NatToString(n / 10);
    }
  }

  predicate NoBraces(s: string) {
    '{' !in s && '}' !in s
  }

  function Prepend(a: string, r: Option<string>): Option<string> {
    match r
    case None => None
    case Some(t) => Some(a + t)
  }

  /**
   * The subset of Python's `str.format` the scripts use: each `{}` takes the next argument,
   * `{{` and `}}` stand for one brace, arguments left over are ignored; a missing argument
   * (IndexError) or any other brace (ValueError, or a field this model does not cover) is `None`.
   */
  function Format(t: string, args: seq<string>): Option<string>
    decreases |t|
  {
    if t == "" then Some("")
    else if StartsWith(t, "{{") then Prepend("{", Format(t[2..], args))
    else if StartsWith(t, "}}") then Prepend("}", Format(t[2..], args))
    else if StartsWith(t, "{}") then
      if args == [] then None else Prepend(args[0], Format(t[2..], args[1..]))
    else if t[0] == '{' || t[0] == '}' then None
    else Prepend([t[0]], Format(t[1..], args))
  }

  /** Brace-free text is copied through by `format`. */
  lemma {:induction false} FormatLiteral(a: string, t: string, args: seq<string>)
    requires NoBraces(a)
    ensures Format(a + t, args) == Prepend(a, Format(t, args))
    decreases |a|
  {
    if a != [] {
      var s := a + t;
      assert s[0] == a[0];
      assert s[1..] == a[1..] + t;
      assert !StartsWith(s, "{{") && !StartsWith(s, "}}") && !StartsWith(s, "{}") by {
        assert s[0] == a[0];
      }
      FormatLiteral(a[1..], t, args);
      assert [a[0]] + a[1..] == a;
      match Format(t, args)
      case None =>
      case Some(r) =>
        assert [a[0]] + (a[1..] + r) == a + r;
    } else {
      assert a + t == t;
      match Format(t, args)
      case None =>
      case Some(r) =>
        assert "" + r == r;
    }
  }

  /** A `{}` field takes the first remaining argument. */
  lemma FormatField(t: string, x: string, args: seq<string>)
    ensures Format("{}" + t, [x] + args) == Prepend(x, Format(t, args))
  {
    assert ("{}" + t)[2..] == t;
    assert ([x] + args)[1..] == args;
  }

  /** Brace-free text, then a `{}` field: both copied through, the field replaced by the first argument. */
  lemma FormatFieldAfter(a: string, t: string, x: string, args: seq<string>)
    requires NoBraces(a)
    ensures Format(a + "{}" + t, [x] + args) == Prepend(a + x, Format(t, args))
  {
    assert a + "{}" + t == a + ("{}" + t);
    FormatLiteral(a, "{}" + t, [x] + args);
    FormatField(t, x, args);
    match Format(t, args)
    case None =>
    case Some(r) =>
      assert a + (x + r) == a + x + r;
  }

  /** Brace-free text formats to itself. */
  lemma FormatPlain(a: string, args: seq<string>)
    requires NoBraces(a)
    ensures Format(a, args) == Some(a)
  {
    FormatLiteral(a, "", args);
    assert a + "" == a;
  }

  /** A brace-free template with one `{}` between two literal pieces. */
  lemma FormatOne(a: string, b: string, x: string)
    requires NoBraces(a) && NoBraces(b)
    ensures Format(a + "{}" + b, [x]) == Some(a + x + b)
  {
    FormatPlain(b, []);
    FormatFieldAfter(a, b, x, []);
    assert [x] + [] == [x];
  }

  /** A brace-free template with two `{}` fields between three literal pieces. */
  lemma FormatTwo(a: string, b: string, c: string, x: string, y: string)
    requires NoBraces(a) && NoBraces(b) && NoBraces(c)
    ensures Format(a + "{}" + b + "{}" + c, [x, y]) == Some(a + x + b + y + c)
  {
    var rest := b + "{}" + c;
    FormatOne(b, c, y);
    FormatFieldAfter(a, rest, x, [y]);
    assert [x] + [y] == [x, y];
    assert a + "{}" + b + "{}" + c == a + "{}" + rest;
    assert a + x + (b + y + c) == a + x + b + y + c;
  }
}
