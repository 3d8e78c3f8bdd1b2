/**
 * The Python string operations the two scripts rely on: `str.strip()`,
 * `str.split(sep)`, `str.replace(old, "")`, and the `stem` of a `pathlib`
 * path. Strings are sequences of characters.
 */
module Text {

  /** The characters for which Python's `str.isspace()` holds; `str.strip()`
      with no argument removes exactly these from both ends. */
  predicate IsSpace(c: char) {
    || c == ' '
    || ('\t' <= c <= '\r')
    || ('\U{1C}' <= c <= '\U{1F}')
    || c == '\U{85}' || c == '\U{A0}' || c == '\U{1680}'
    || ('\U{2000}' <= c <= '\U{200A}')
    || c == '\U{2028}' || c == '\U{2029}' || c == '\U{202F}' || c == '\U{205F}' || c == '\U{3000}'
  }

  /** Drops the longest all-whitespace prefix. */
  function TrimStart(s: string): (r: string)
    ensures |r| <= |s|
  {
    if |s| > 0 && IsSpace(s[0]) then TrimStart(s[1..]) else s
  }

  /** `TrimStart` keeps a suffix of `s` that does not start with whitespace,
      and drops only whitespace. */
  lemma {:induction false} TrimStartSpec(s: string)
    ensures TrimStart(s) == s[|s| - |TrimStart(s)|..]
    ensures TrimStart(s) == [] || !IsSpace(TrimStart(s)[0])
    ensures forall k :: 0 <= k < |s| - |TrimStart(s)| ==> IsSpace(s[k])
  {
    if |s| > 0 && IsSpace(s[0]) {
      var r := TrimStart(s[1..]);
      TrimStartSpec(s[1..]);
      assert TrimStart(s) == r;
      forall k | 0 <= k < |s| - |r|
        ensures IsSpace(s[k])
      {
        if k > 0 {
          assert s[k] == s[1..][k - 1];
        }
      }
    }
  }

  /** Drops the longest all-whitespace suffix. */
  function TrimEnd(s: string): (r: string)
    ensures |r| <= |s|
  {
    if |s| > 0 && IsSpace(s[|s| - 1]) then TrimEnd(s[..|s| - 1]) else s
  }

  /** `TrimEnd` keeps a prefix of `s` that does not end with whitespace, and
      drops only whitespace. */
  lemma {:induction false} TrimEndSpec(s: string)
    ensures TrimEnd(s) == s[..|TrimEnd(s)|]
    ensures TrimEnd(s) == [] || !IsSpace(TrimEnd(s)[|TrimEnd(s)| - 1])
    ensures forall k :: |TrimEnd(s)| <= k < |s| ==> IsSpace(s[k])
  {
    if |s| > 0 && IsSpace(s[|s| - 1]) {
      var r := TrimEnd(s[..|s| - 1]);
      TrimEndSpec(s[..|s| - 1]);
      assert TrimEnd(s) == r;
      forall k | |r| <= k < |s|
        ensures IsSpace(s[k])
      {
        if k < |s| - 1 {
          assert s[k] == s[..|s| - 1][k];
        }
      }
    }
  }

  /** Python's `s.strip()`: the part of `s` between its leading and its
      trailing whitespace. */
  function Strip(s: string): (r: string)
    ensures |r| <= |s|
  {
    TrimEnd(TrimStart(s))
  }

  /** `r` is the part of `s` starting at `i`, and everything of `s` before
      and after it is whitespace. */
  ghost predicate StrippedAt(s: string, i: int, r: string) {
    && 0 <= i <= |s| - |r|
    && r == s[i..i + |r|]
    && (forall k :: 0 <= k < i ==> IsSpace(s[k]))
    && (forall k :: i + |r| <= k < |s| ==> IsSpace(s[k]))
  }

  /** `Strip` removes whitespace only, and all of it, from both ends: the
      result is a slice of `s` with only whitespace around it, and it neither
      starts nor ends with whitespace. */
  lemma StripSpec(s: string)
    ensures Strip(s) == [] || (!IsSpace(Strip(s)[0]) && !IsSpace(Strip(s)[|Strip(s)| - 1]))
    ensures exists i :: StrippedAt(s, i, Strip(s))
  {
    var t := TrimStart(s);
    var r := TrimEnd(t);
    TrimStartSpec(s);
    TrimEndSpec(t);
    assert r == Strip(s);
    if r != [] {
      assert r[0] == t[0];
    }
    assert StrippedAt(s, |s| - |t|, r);
  }

  /** Stripping twice is stripping once. */
  lemma StripIdempotent(s: string)
    ensures Strip(Strip(s)) == Strip(s)
  {
    var r := Strip(s);
    StripSpec(s);
    assert TrimStart(r) == r;
    assert TrimEnd(r) == r;
  }

  /** Python's `s.rfind(c)`: the last index holding `c`, or -1. */
  function LastIndexOf(s: string, c: char): (i: int)
    ensures -1 <= i < |s|
    ensures i >= 0 ==> s[i] == c
  {
    if s == [] then -1
    else if s[|s| - 1] == c then |s| - 1
    else LastIndexOf(s[..|s| - 1], c)
  }

  /** No character after `LastIndexOf(s, c)` is `c`. */
  lemma {:induction false} LastIndexOfIsLast(s: string, c: char)
    ensures forall k :: LastIndexOf(s, c) < k < |s| ==> s[k] != c
  {
    if s != [] && s[|s| - 1] != c {
      var s' := s[..|s| - 1];
      LastIndexOfIsLast(s', c);
      assert forall k :: 0 <= k < |s'| ==> s'[k] == s[k];
    }
  }

  /** No character of `s` is `c`. */
  predicate Lacks(s: string, c: char) {
    forall k :: 0 <= k < |s| ==> s[k] != c
  }

  /** Python's `s.split(sep)` for a one-character separator: the pieces of `s`
      between consecutive separators, always at least one (`"".split(sep)` is
      `[""]`). Built from the last separator backwards, so that the last piece
      is visibly the text after the last separator. */
  function Split(s: string, sep: char): (parts: seq<string>)
    ensures |parts| >= 1
    decreases |s|
  {
    var i := LastIndexOf(s, sep);
    if i < 0 then [s] else Split(s[..i], sep) + [s[i + 1..]]
  }

  /** The last piece of a split is the text after the last separator, and
      there is one piece exactly when there is no separator. */
  lemma SplitLastPiece(s: string, sep: char)
    ensures Split(s, sep)[|Split(s, sep)| - 1] == s[LastIndexOf(s, sep) + 1..]
    ensures |Split(s, sep)| == 1 <==> Lacks(s, sep)
  {
    LastIndexOfIsLast(s, sep);
  }

  /** Python's `sep.join(parts)`, the inverse of `Split`. */
  function Join(parts: seq<string>, sep: char): string
    requires |parts| >= 1
  {
    if |parts| == 1 then parts[0]
    else Join(parts[..|parts| - 1], sep) + [sep] + parts[|parts| - 1]
  }

  /** Joining the pieces back with the separator gives the original text. */
  lemma {:induction false} JoinSplit(s: string, sep: char)
    ensures Join(Split(s, sep), sep) == s
    decreases |s|
  {
    var i := LastIndexOf(s, sep);
    if i >= 0 {
      var init := Split(s[..i], sep);
      assert Split(s, sep) == init + [s[i + 1..]];
      JoinSplit(s[..i], sep);
      JoinSnoc(init, s[i + 1..], sep);
      SplitAround(s, i);
    }
  }

  /** No piece of `parts` holds the separator. */
  predicate NoSeparator(parts: seq<string>, sep: char) {
    parts == [] || (NoSeparator(parts[..|parts| - 1], sep) && Lacks(parts[|parts| - 1], sep))
  }

  /** Splitting a join of separator-free pieces gives the pieces back. */
  lemma {:induction false} SplitJoin(parts: seq<string>, sep: char)
    requires |parts| >= 1 && NoSeparator(parts, sep)
    ensures Split(Join(parts, sep), sep) == parts
  {
    if |parts| > 1 {
      SplitJoin(parts[..|parts| - 1], sep);
      SplitJoinLast(parts, sep);
      DropLastAppend(parts);
    }
  }

  /** Splitting the join of several pieces, the last of which has no
      separator, splits the join of all but the last and adds the last. */
  lemma SplitJoinLast(parts: seq<string>, sep: char)
    requires |parts| > 1 && Lacks(parts[|parts| - 1], sep)
    ensures Split(Join(parts, sep), sep) == Split(Join(parts[..|parts| - 1], sep), sep) + [parts[|parts| - 1]]
  {
    var w, t := Join(parts[..|parts| - 1], sep), parts[|parts| - 1];
    var x := w + [sep] + t;
    LastIndexOfBefore(w, t, sep);
    assert x[..|w|] == w && x[|w| + 1..] == t;
  }

  /** A non-empty sequence is its prefix without the last element, followed
      by that element. */
  lemma DropLastAppend<T>(s: seq<T>)
    requires |s| > 0
    ensures s[..|s| - 1] + [s[|s| - 1]] == s
  {
  }

  /** Taking all of a sequence gives the sequence. */
  lemma TakeAll<T>(s: seq<T>)
    ensures s[..|s|] == s
  {
  }

  /** Appending a piece appends the separator and the piece. */
  lemma JoinSnoc(init: seq<string>, last: string, sep: char)
    requires |init| >= 1
    ensures Join(init + [last], sep) == Join(init, sep) + [sep] + last
  {
    assert (init + [last])[..|init|] == init;
  }

  /** A text is the part before position `i`, the character at `i` and the
      part after it. */
  lemma SplitAround(s: string, i: nat)
    requires i < |s|
    ensures s[..i] + [s[i]] + s[i + 1..] == s
  {
  }

  /** The last separator of `w + sep + t`, when `t` has none, is the one
      before `t`. */
  lemma {:induction false} LastIndexOfBefore(w: string, t: string, sep: char)
    requires Lacks(t, sep)
    ensures LastIndexOf(w + [sep] + t, sep) == |w|
  {
    var x := w + [sep] + t;
    if t == [] {
      assert x[|x| - 1] == sep;
    } else {
      var t' := t[..|t| - 1];
      assert x[|x| - 1] == t[|t| - 1];
      assert x[..|x| - 1] == w + [sep] + t';
      LastIndexOfBefore(w, t', sep);
    }
  }

  /** `pat` occurs in `s` starting at position `p`. */
  predicate OccursAt(s: string, pat: string, p: nat) {
    p + |pat| <= |s| && s[p..p + |pat|] == pat
  }

  /** Python's `s.replace(pat, repl)` for a non-empty `pat`: scanning left to
      right, each occurrence that does not overlap an earlier replaced one is
      replaced by `repl`. */
  function ReplaceAll(s: string, pat: string, repl: string): (r: string)
    requires pat != []
    ensures repl == [] ==> |r| <= |s|
    ensures |s| < |pat| ==> r == s
  {
    if |s| < |pat| then s
    else if s[..|pat|] == pat then repl + ReplaceAll(s[|pat|..], pat, repl)
    else [s[0]] + ReplaceAll(s[1..], pat, repl)
  }

  /** An occurrence in the tail of `s` is an occurrence in `s`, one later. */
  lemma OccursInTail(s: string, pat: string, p: nat)
    requires |s| > 0
    ensures OccursAt(s[1..], pat, p) <==> OccursAt(s, pat, p + 1)
  {
    if p + |pat| <= |s[1..]| {
      assert s[1..][p..p + |pat|] == s[p + 1..p + 1 + |pat|];
    }
  }

  /** A prefix `a` in which no occurrence of `pat` starts is kept unchanged by
      `ReplaceAll`, even when `a` is followed by more text. */
  lemma {:induction false} ReplaceAllSkipsPrefix(a: string, b: string, pat: string, repl: string)
    requires pat != []
    requires forall p: nat :: p < |a| ==> !OccursAt(a + b, pat, p)
    ensures ReplaceAll(a + b, pat, repl) == a + ReplaceAll(b, pat, repl)
  {
    var s := a + b;
    if a == [] {
      assert s == b;
    } else if |s| >= |pat| {
      assert !OccursAt(s, pat, 0);
      assert s[1..] == a[1..] + b;
      forall p: nat | p < |a[1..]|
        ensures !OccursAt(a[1..] + b, pat, p)
      {
        OccursInTail(s, pat, p);
      }
      ReplaceAllSkipsPrefix(a[1..], b, pat, repl);
      assert ReplaceAll(s, pat, repl) == [s[0]] + ReplaceAll(s[1..], pat, repl);
      assert a == [a[0]] + a[1..];
    }
  }

  /** Text in which `pat` never occurs is left unchanged by `ReplaceAll`. */
  lemma ReplaceAllAbsent(s: string, pat: string, repl: string)
    requires pat != []
    requires forall p: nat :: !OccursAt(s, pat, p)
    ensures ReplaceAll(s, pat, repl) == s
  {
    assert s + [] == s;
    ReplaceAllSkipsPrefix(s, [], pat, repl);
  }

  /** `pat` occurs nowhere in `s`. */
  ghost predicate NoOccurrence(s: string, pat: string) {
    forall p: nat :: !OccursAt(s, pat, p)
  }

  /** An occurrence in `a + b` that ends within `a` is an occurrence in `a`. */
  lemma OccursWithin(a: string, b: string, pat: string, p: nat)
    requires p + |pat| <= |a|
    ensures OccursAt(a + b, pat, p) ==> OccursAt(a, pat, p)
  {
    assert (a + b)[p..p + |pat|] == a[p..p + |pat|];
  }

  /** An occurrence in `a + b` that starts in `a` and ends in `b` lines up the
      rest of `a` with a prefix of `pat`, and the first character of `b` with
      the character of `pat` after it. */
  lemma OccursAcross(a: string, b: string, pat: string, p: nat)
    requires p < |a| < p + |pat|
    ensures OccursAt(a + b, pat, p) ==> |b| > 0 && pat[|a| - p] == b[0] && a[p..] == pat[..|a| - p]
  {
    var s := a + b;
    if OccursAt(s, pat, p) {
      assert s[|a|] == s[p..p + |pat|][|a| - p];
      assert a[p..] == s[p..|a|] == s[p..p + |pat|][..|a| - p];
    }
  }

  /** Replacing in a text that starts with `pat` replaces that occurrence and
      goes on after it. */
  lemma ReplaceAllAtStart(pat: string, rest: string, repl: string)
    requires pat != []
    ensures ReplaceAll(pat + rest, pat, repl) == repl + ReplaceAll(rest, pat, repl)
  {
    var s := pat + rest;
    assert s[..|pat|] == pat;
    assert s[|pat|..] == rest;
  }

  /** `s` ends with `suffix`. */
  predicate EndsWith(s: string, suffix: string) {
    |suffix| <= |s| && s[|s| - |suffix|..] == suffix
  }

  /** `pathlib.PurePath(name).stem`: the name without its last suffix, where a
      suffix starts at the last dot, provided that dot is neither the first
      nor the last character. */
  function PathStem(name: string): (stem: string)
  {
    var i := LastIndexOf(name, '.');
    if 0 < i < |name| - 1 then name[..i] else name
  }

  /** The stem of `base + ext` is `base` when `ext` is a dot followed by a
      dot-free, non-empty extension and `base` is non-empty. */
  lemma PathStemOfSuffix(base: string, ext: string)
    requires |base| > 0 && |ext| > 1 && ext[0] == '.' && Lacks(ext[1..], '.')
    ensures PathStem(base + ext) == base
  {
    assert base + ext == base + ['.'] + ext[1..];
    LastIndexOfBefore(base, ext[1..], '.');
    assert (base + ext)[..|base|] == base;
  }
}
