/** Python `str` operations the rest of the model uses, on `seq<char>`.
    Case conversion is ASCII-only; the whitespace set is that of `str.isspace`. */
module Strings {

  predicate StartsWith(s: string, prefix: string) {
    |prefix| <= |s| && s[..|prefix|] == prefix
  }

  predicate EndsWith(s: string, suffix: string) {
    |suffix| <= |s| && s[|s| - |suffix|..] == suffix
  }

  /** `sub` occurs in `s` starting at index `i`. */
  predicate OccursAt(s: string, sub: string, i: int) {
    0 <= i && i + |sub| <= |s| && s[i..i + |sub|] == sub
  }

  /** Python's `sub in s`. */
  predicate Contains(s: string, sub: string) {
    exists i | 0 <= i <= |s| - |sub| :: OccursAt(s, sub, i)
  }

  lemma ContainsExtendLeft(s: string, t: string, sub: string)
    requires Contains(s, sub)
    ensures Contains(t + s, sub)
  {
    var i :| 0 <= i <= |s| - |sub| && OccursAt(s, sub, i);
    assert (t + s)[|t| + i..|t| + i + |sub|] == s[i..i + |sub|];
    assert OccursAt(t + s, sub, |t| + i);
  }

  /** Characters for which Python's `str.isspace()` holds. */
  predicate IsSpace(c: char) {
    c == ' ' || ('\t' <= c <= '\r') || ('\U{1C}' <= c <= '\U{1F}') || c == '\U{85}' || c == '\U{A0}'
    || c == '\U{1680}' || ('\U{2000}' <= c <= '\U{200A}') || c == '\U{2028}' || c == '\U{2029}'
    || c == '\U{202F}' || c == '\U{205F}' || c == '\U{3000}'
  }

  /** Characters at which Python's `str.splitlines()` breaks a line. */
  predicate IsLineBreak(c: char) {
    ('\n' <= c <= '\r') || ('\U{1C}' <= c <= '\U{1E}') || c == '\U{85}' || c == '\U{2028}' || c == '\U{2029}'
  }

  /** Number of leading whitespace characters. */
  function LeadingSpace(s: string): (n: nat)
    ensures n <= |s|
    ensures forall i :: 0 <= i < n ==> IsSpace(s[i])
    ensures n < |s| ==> !IsSpace(s[n])
  {
    if |s| == 0 || !IsSpace(s[0]) then 0 else 1 + LeadingSpace(s[1..])
  }

  /** Number of trailing whitespace characters. */
  function TrailingSpace(s: string): (n: nat)
    ensures n <= |s|
    ensures forall i :: |s| - n <= i < |s| ==> IsSpace(s[i])
    ensures n < |s| ==> !IsSpace(s[|s| - n - 1])
  {
    if |s| == 0 || !IsSpace(s[|s| - 1]) then 0 else 1 + TrailingSpace(s[..|s| - 1])
  }

  /** Python's `s.strip()`: the part of `s` between its leading and trailing whitespace. */
  function Strip(s: string): (r: string)
    ensures |r| <= |s|
    ensures r != [] ==> !IsSpace(r[0]) && !IsSpace(r[|r| - 1])
    ensures Contains(s, r)
    ensures (forall i :: 0 <= i < |s| ==> IsSpace(s[i])) <==> r == []
  {
    var t := s[LeadingSpace(s)..];
    var r := t[..|t| - TrailingSpace(t)];
    assert OccursAt(s, r, LeadingSpace(s));
    r
  }

  /** Stripping a stripped text changes nothing. */
  lemma StripIdem(s: string)
    ensures Strip(Strip(s)) == Strip(s)
  {
    var r := Strip(s);
    if r != [] {
      assert LeadingSpace(r) == 0 && r[0..] == r;
      assert TrailingSpace(r) == 0;
    }
  }

  /** Python's `s.lstrip(c)`: `s` without its leading run of `c`. */
  function LStripChar(s: string, c: char): (r: string)
    ensures |r| <= |s| && r == s[|s| - |r|..]
    ensures r != [] ==> r[0] != c
    ensures forall i :: 0 <= i < |s| - |r| ==> s[i] == c
  {
    if |s| > 0 && s[0] == c then LStripChar(s[1..], c) else s
  }

  /** `lstrip` of a concatenation: past a first part made only of `c`, the
      second part is stripped too; otherwise the second part is kept whole. */
  lemma {:induction false} LStripAppend(a: string, x: string, c: char)
    ensures LStripChar(a + x, c) == if LStripChar(a, c) == [] then LStripChar(x, c) else LStripChar(a, c) + x
  {
    if a == [] {
      assert a + x == x;
    } else {
      assert (a + x)[0] == a[0] && (a + x)[1..] == a[1..] + x;
      if a[0] == c {
        LStripAppend(a[1..], x, c);
      }
    }
  }

  /** Python's `s.rstrip(c)`: `s` without its trailing run of `c`. */
  function RStripChar(s: string, c: char): (r: string)
    ensures |r| <= |s| && r == s[..|r|]
    ensures r != [] ==> r[|r| - 1] != c
    ensures forall i :: |r| <= i < |s| ==> s[i] == c
  {
    if |s| > 0 && s[|s| - 1] == c then RStripChar(s[..|s| - 1], c) else s
  }

  /** Python's `s.split(sep)` for a one-character separator. */
  function Split(s: string, sep: char): (r: seq<string>)
    ensures |r| >= 1
    ensures forall k :: 0 <= k < |r| ==> sep !in r[k]
  {
    if |s| == 0 then [""]
    else
      var rest := Split(s[1..], sep);
      if s[0] == sep then [""] + rest else [[s[0]] + rest[0]] + rest[1..]
  }

  /** A text file read in Python's text mode (universal newlines): every
      `\r\n` pair and every lone `\r` reads as `\n`. */
  function ReadText(raw: string): (r: string)
    ensures '\r' !in r
    ensures |r| <= |raw|
  {
    if raw == [] then []
    else if raw[0] != '\r' then [raw[0]] + ReadText(raw[1..])
    else if |raw| > 1 && raw[1] == '\n' then "\n" + ReadText(raw[2..])
    else "\n" + ReadText(raw[1..])
  }

  /** A text without `\r` reads as itself. */
  lemma {:induction false} ReadTextPlain(raw: string)
    requires '\r' !in raw
    ensures ReadText(raw) == raw
  {
    if raw != [] {
      ReadTextPlain(raw[1..]);
    }
  }

  /** Reading adds no character but `\n`. */
  lemma {:induction false} ReadTextChars(raw: string)
    ensures forall i :: 0 <= i < |ReadText(raw)| ==> ReadText(raw)[i] == '\n' || ReadText(raw)[i] in raw
  {
    if raw != [] {
      var n := if raw[0] == '\r' && |raw| > 1 && raw[1] == '\n' then 2 else 1;
      ReadTextChars(raw[n..]);
      var tail := ReadText(raw[n..]);
      assert ReadText(raw) == ReadText(raw)[..1] + tail;
      forall i | 1 <= i < |ReadText(raw)|
        ensures ReadText(raw)[i] == '\n' || ReadText(raw)[i] in raw
      {
        assert ReadText(raw)[i] == tail[i - 1];
        assert tail[i - 1] in raw[n..] ==> tail[i - 1] in raw;
      }
    }
  }

  /** Reading is done piece by piece, unless the cut splits a `\r\n` pair. */
  lemma {:induction false} ReadTextConcat(a: string, b: string)
    requires a == [] || b == [] || a[|a| - 1] != '\r' || b[0] != '\n'
    ensures ReadText(a + b) == ReadText(a) + ReadText(b)
    decreases |a|
  {
    if a == [] {
      assert a + b == b;
    } else {
      var ab := a + b;
      assert ab[0] == a[0];
      if a[0] != '\r' {
        assert ab[1..] == a[1..] + b;
        assert |a| > 1 ==> a[1..][|a| - 2] == a[|a| - 1];
        ReadTextConcat(a[1..], b);
        ConcatAssoc([a[0]], ReadText(a[1..]), ReadText(b));
      } else if |a| > 1 && a[1] == '\n' {
        assert ab[1] == '\n' && ab[2..] == a[2..] + b;
        assert |a| > 2 ==> a[2..][|a| - 3] == a[|a| - 1];
        ReadTextConcat(a[2..], b);
        ConcatAssoc("\n", ReadText(a[2..]), ReadText(b));
      } else {
        assert ab[1..] == a[1..] + b;
        assert |a| > 1 ==> a[1..][|a| - 2] == a[|a| - 1];
        assert !(|ab| > 1 && ab[1] == '\n');
        ReadTextConcat(a[1..], b);
        ConcatAssoc("\n", ReadText(a[1..]), ReadText(b));
      }
    }
  }

  /** A lone `\r` ends a line: `x\ry` reads as the two lines `x` and `y`. */
  lemma LoneCarriageReturn(x: string, y: string)
    requires '\r' !in x && '\n' !in x && '\r' !in y && '\n' !in y
    ensures Split(ReadText(x + "\r" + y), '\n') == [x, y]
  {
    ReadTextLoneCrBetween(x, y);
    SplitTwo(x, y, '\n');
  }

  lemma ReadTextLoneCrBetween(x: string, y: string)
    requires '\r' !in x && '\r' !in y && '\n' !in y
    ensures ReadText(x + "\r" + y) == x + ['\n'] + y
  {
    ConcatAssoc(x, "\r", y);
    ReadTextConcat(x, "\r" + y);
    ReadTextPlain(x);
    ReadTextLoneCr(y);
    ReadTextPlain(y);
    ConcatAssoc(x, "\n", y);
  }

  lemma ReadTextLoneCr(y: string)
    requires y == [] || y[0] != '\n'
    ensures ReadText("\r" + y) == "\n" + ReadText(y)
  {
    assert ("\r" + y)[1..] == y;
  }

  /** A `\r\n` pair reads as one `\n`. */
  lemma ReadTextCrLf(y: string)
    ensures ReadText("\r\n" + y) == "\n" + ReadText(y)
  {
    assert ("\r\n" + y)[2..] == y;
  }

  /** A `\r\n` pair ends one line: `x\r\ny` reads as the two lines `x` and `y`,
      with no blank line between them. */
  lemma CrLfEndsLine(x: string, y: string)
    requires '\r' !in x && '\n' !in x && '\r' !in y && '\n' !in y
    ensures Split(ReadText(x + "\r\n" + y), '\n') == [x, y]
  {
    assert ReadText(x + "\r\n" + y) == x + ['\n'] + y by {
      ConcatAssoc(x, "\r\n", y);
      ReadTextConcat(x, "\r\n" + y);
      ReadTextPlain(x);
      ReadTextCrLf(y);
      ReadTextPlain(y);
      ConcatAssoc(x, "\n", y);
    }
    SplitTwo(x, y, '\n');
  }

  /** A text with one separator splits into the two sides. */
  lemma SplitTwo(x: string, y: string, sep: char)
    requires sep !in x && sep !in y
    ensures Split(x + [sep] + y, sep) == [x, y]
  {
    SplitAt(x, y, sep);
    SplitHead(y, sep);
  }

  /** Splitting at the first separator. */
  lemma {:induction false} SplitAt(x: string, y: string, sep: char)
    requires sep !in x
    ensures Split(x + [sep] + y, sep) == [x] + Split(y, sep)
  {
    if x == [] {
      assert ([sep] + y)[1..] == y;
    } else {
      assert x[0] in x && x == [x[0]] + x[1..];
      assert (x + [sep] + y)[1..] == x[1..] + [sep] + y;
      SplitAt(x[1..], y, sep);
    }
  }

  /** Python's `sep.join(parts)`. */
  function Join(parts: seq<string>, sep: string): string {
    if |parts| == 0 then ""
    else if |parts| == 1 then parts[0]
    else parts[0] + sep + Join(parts[1..], sep)
  }

  /** Joining two non-empty lists puts one separator between their joins. */
  lemma {:induction false} JoinConcat(a: seq<string>, b: seq<string>, sep: string)
    requires a != [] && b != []
    ensures Join(a + b, sep) == Join(a, sep) + sep + Join(b, sep)
  {
    if |a| == 1 {
      assert a + b == [a[0]] + b && (a + b)[1..] == b;
    } else {
      JoinConcat(a[1..], b, sep);
      assert (a + b)[1..] == a[1..] + b;
      assert (a + b)[0] == a[0];
      ConcatAssoc(a[0] + sep, Join(a[1..], sep), sep + Join(b, sep));
    }
  }

  /** An inner piece of a join sits between two separators. */
  lemma JoinInner(parts: seq<string>, i: nat, sep: string)
    requires 0 < i < |parts| - 1
    ensures Contains(Join(parts, sep), sep + parts[i] + sep)
  {
    var pre := parts[..i];
    var post := parts[i + 1..];
    assert parts == pre + ([parts[i]] + post);
    JoinConcat(pre, [parts[i]] + post, sep);
    assert Join([parts[i]] + post, sep) == parts[i] + sep + Join(post, sep);
    var s := Join(parts, sep);
    var x := Join(pre, sep);
    var pat := sep + parts[i] + sep;
    assert s == x + pat + Join(post, sep);
    assert s[|x|..|x| + |pat|] == pat;
    assert OccursAt(s, pat, |x|);
  }

  /** A join starts with its first piece. */
  lemma JoinStartsWithFirst(parts: seq<string>, sep: string)
    requires parts != []
    ensures StartsWith(Join(parts, sep), parts[0])
  {
    if |parts| > 1 {
      var whole := parts[0] + sep + Join(parts[1..], sep);
      assert whole[..|parts[0]|] == parts[0];
    }
  }

  /** A join ends with its last piece. */
  lemma {:induction false} JoinEndsWithLast(parts: seq<string>, sep: string)
    requires parts != []
    ensures EndsWith(Join(parts, sep), parts[|parts| - 1])
  {
    if |parts| > 1 {
      JoinEndsWithLast(parts[1..], sep);
      var j := Join(parts[1..], sep);
      var last := parts[|parts| - 1];
      assert parts[1..][|parts[1..]| - 1] == last;
      var whole := parts[0] + sep + j;
      assert whole[|whole| - |last|..] == j[|j| - |last|..];
    } else {
      assert Join(parts, sep) == parts[0];
    }
  }

  /** Two neighbouring pieces of a join appear with a separator between them. */
  lemma JoinAdjacent(parts: seq<string>, i: nat, sep: string)
    requires i + 1 < |parts|
    ensures Contains(Join(parts, sep), parts[i] + sep + parts[i + 1])
  {
    var pat := parts[i] + sep + parts[i + 1];
    var tail := parts[i..];
    var t := Join(tail, sep);
    JoinFirstPair(tail, sep);
    assert tail[0] == parts[i] && tail[1] == parts[i + 1];
    assert OccursAt(t, pat, 0);
    if i == 0 {
      assert parts == tail;
    } else {
      var pre := parts[..i];
      assert parts == pre + tail;
      JoinConcat(pre, tail, sep);
      ContainsExtendLeft(t, Join(pre, sep) + sep, pat);
    }
  }

  /** A join of two or more pieces starts with the first two and the
      separator between them. */
  lemma JoinFirstPair(parts: seq<string>, sep: string)
    requires |parts| >= 2
    ensures StartsWith(Join(parts, sep), parts[0] + sep + parts[1])
  {
    var rest := parts[1..];
    assert rest[0] == parts[1];
    JoinStartsWithFirst(rest, sep);
    var pat := parts[0] + sep + parts[1];
    var t := Join(parts, sep);
    assert t == parts[0] + sep + Join(rest, sep);
    assert t[..|pat|] == pat;
  }

  /** Joining the pieces of a split with the separator gives the text back. */
  lemma {:induction false} JoinSplit(s: string, sep: char)
    ensures Join(Split(s, sep), [sep]) == s
  {
    if |s| > 0 {
      JoinSplit(s[1..], sep);
      var rest := Split(s[1..], sep);
      if s[0] != sep && |rest| > 1 {
        assert Join(Split(s, sep), [sep]) == [s[0]] + rest[0] + [sep] + Join(rest[1..], [sep]);
      }
    }
  }

  /** The pieces of a split are in bijection with the separators plus one. */
  lemma {:induction false} SplitCount(s: string, sep: char)
    ensures |Split(s, sep)| == Count(s, sep) + 1
  {
    if |s| > 0 {
      SplitCount(s[1..], sep);
    }
  }

  function Count(s: string, c: char): nat {
    if |s| == 0 then 0 else (if s[0] == c then 1 else 0) + Count(s[1..], c)
  }

  /** The first piece of a split is the longest prefix free of the separator
      (Python's `s.split(sep)[0]`). */
  lemma {:induction false} SplitHead(s: string, sep: char)
    ensures StartsWith(s, Split(s, sep)[0])
    ensures |Split(s, sep)[0]| < |s| ==> s[|Split(s, sep)[0]|] == sep
    ensures sep !in s ==> Split(s, sep) == [s]
  {
    if |s| > 0 {
      SplitHead(s[1..], sep);
      assert s == [s[0]] + s[1..];
    }
  }

  /** Python's `s.replace(old, new)`: leftmost, non-overlapping occurrences. */
  function ReplaceAll(s: string, pat: string, rep: string): string
    requires |pat| > 0
    decreases |s|
  {
    if |s| == 0 then ""
    else if StartsWith(s, pat) then rep + ReplaceAll(s[|pat|..], pat, rep)
    else [s[0]] + ReplaceAll(s[1..], pat, rep)
  }

  /** A string without the first character of the pattern is left as it is. */
  lemma {:induction false} ReplaceAllAbsent(s: string, pat: string, rep: string)
    requires |pat| > 0 && pat[0] !in s
    ensures ReplaceAll(s, pat, rep) == s
    decreases |s|
  {
    if s != [] {
      assert s[0] != pat[0];
      assert pat[0] !in s[1..] by {
        assert forall x :: x in s[1..] ==> x in s;
      }
      ReplaceAllAbsent(s[1..], pat, rep);
      assert s == [s[0]] + s[1..];
    }
  }

  /** A string whose only possible start of the pattern is its first
      character, where the pattern does not follow, is left as it is. */
  lemma ReplaceAllHeadOnly(s: string, pat: string, rep: string)
    requires |pat| >= 2 && |s| >= 2 && s[1] != pat[1] && pat[0] !in s[1..]
    ensures ReplaceAll(s, pat, rep) == s
  {
    assert !StartsWith(s, pat) by {
      if |pat| <= |s| {
        assert s[..|pat|][1] == s[1];
      }
    }
    ReplaceAllAbsent(s[1..], pat, rep);
    assert s == [s[0]] + s[1..];
  }

  /** An occurrence in a suffix is an occurrence in the whole string. */
  lemma OccursAtShift(s: string, pat: string, k: nat, i: int)
    requires k <= |s| && OccursAt(s[k..], pat, i)
    ensures OccursAt(s, pat, i + k)
  {
    assert s[i + k..i + k + |pat|] == s[k..][i..i + |pat|];
  }

  /** An occurrence fixes each character it covers. */
  lemma OccursAtChar(s: string, pat: string, i: int, a: nat)
    requires a < |pat|
    ensures OccursAt(s, pat, i) ==> s[i + a] == pat[a]
  {
    if OccursAt(s, pat, i) {
      assert s[i + a] == s[i..i + |pat|][a];
    }
  }

  /** A string in which the pattern never occurs is left as it is. */
  lemma {:induction false} ReplaceAllNone(s: string, pat: string, rep: string)
    requires |pat| > 0 && forall i :: 0 <= i <= |s| - |pat| ==> !OccursAt(s, pat, i)
    ensures ReplaceAll(s, pat, rep) == s
    decreases |s|
  {
    if s != [] {
      assert !StartsWith(s, pat) by {
        assert StartsWith(s, pat) ==> OccursAt(s, pat, 0);
      }
      forall i | 0 <= i <= |s[1..]| - |pat|
        ensures !OccursAt(s[1..], pat, i)
      {
        if OccursAt(s[1..], pat, i) {
          OccursAtShift(s, pat, 1, i);
        }
      }
      ReplaceAllNone(s[1..], pat, rep);
      assert s == [s[0]] + s[1..];
    }
  }

  /** Cutting a string after a prefix it starts with, or anywhere if it does
      not start with it, keeps the answer. */
  lemma StartsWithCut(s: string, pat: string, m: nat)
    requires m <= |s| && (|pat| <= m || !StartsWith(s, pat))
    ensures StartsWith(s[..m], pat) == StartsWith(s, pat)
  {
    if |pat| <= m {
      assert s[..m][..|pat|] == s[..|pat|];
    }
  }

  /** When no occurrence of the pattern straddles index `m`, the two sides are
      replaced on their own. */
  lemma {:induction false} ReplaceAllSplit(s: string, pat: string, rep: string, m: nat)
    requires |pat| > 0 && m <= |s|
    requires forall i :: m - |pat| < i < m ==> !OccursAt(s, pat, i)
    ensures ReplaceAll(s, pat, rep) == ReplaceAll(s[..m], pat, rep) + ReplaceAll(s[m..], pat, rep)
    decreases m
  {
    if m == 0 {
      assert s[..0] == [] && s[0..] == s;
    } else {
      var hit := StartsWith(s, pat);
      var k := if hit then |pat| else 1;
      assert k <= m by {
        assert hit ==> OccursAt(s, pat, 0);
      }
      var u := s[..m];
      StartsWithCut(s, pat, m);
      var t := s[k..];
      NoOccurrenceShift(s, pat, k, m - |pat|, m);
      ReplaceAllSplit(t, pat, rep, m - k);
      assert t[..m - k] == u[k..] && t[m - k..] == s[m..];
      var head := if hit then rep else [s[0]];
      assert u[0] == s[0];
      assert ReplaceAll(u, pat, rep) == head + ReplaceAll(u[k..], pat, rep);
      assert ReplaceAll(s, pat, rep) == head + ReplaceAll(t, pat, rep);
      ConcatAssoc(head, ReplaceAll(u[k..], pat, rep), ReplaceAll(s[m..], pat, rep));
    }
  }

  /** A stretch of the string free of occurrences stays free in a suffix. */
  lemma NoOccurrenceShift(s: string, pat: string, k: nat, lo: int, hi: int)
    requires k <= |s| && forall i :: lo < i < hi ==> !OccursAt(s, pat, i)
    ensures forall i :: lo - k < i < hi - k ==> !OccursAt(s[k..], pat, i)
  {
    forall i | lo - k < i < hi - k
      ensures !OccursAt(s[k..], pat, i)
    {
      if OccursAt(s[k..], pat, i) {
        OccursAtShift(s, pat, k, i);
      }
    }
  }

  /** The first occurrence of a pattern that cannot overlap itself is the one
      replaced first. */
  lemma ReplaceAllFirstHit(x: string, pat: string, rep: string, y: string)
    requires |pat| > 0 && pat[0] !in pat[1..]
    requires forall i :: 0 <= i <= |x| - |pat| ==> !OccursAt(x, pat, i)
    ensures ReplaceAll(x + pat + y, pat, rep) == x + rep + ReplaceAll(y, pat, rep)
  {
    var s := x + pat + y;
    forall i | |x| - |pat| < i < |x|
      ensures !OccursAt(s, pat, i)
    {
      if 0 <= i {
        OccursAtChar(s, pat, i, |x| - i);
        assert s[|x|] == pat[0] && pat[|x| - i] == pat[1..][|x| - i - 1];
      }
    }
    ReplaceAllSplit(s, pat, rep, |x|);
    assert s[..|x|] == x && s[|x|..] == pat + y;
    ReplaceAllHit(y, pat, rep);
    ReplaceAllNone(x, pat, rep);
  }

  /** Putting something in front keeps what a string ends with. */
  lemma EndsWithPrepend(head: string, r: string, tail: string)
    requires EndsWith(r, tail)
    ensures EndsWith(head + r, tail)
  {
    assert (head + r)[|head + r| - |tail|..] == r[|r| - |tail|..];
  }

  /** When no occurrence of the pattern straddles the last `n` characters,
      those are replaced on their own: the result ends with their replacement. */
  lemma {:induction false} ReplaceAllTail(s: string, pat: string, rep: string, n: nat)
    requires |pat| > 0 && n <= |s|
    requires forall i :: |s| - n - |pat| < i < |s| - n ==> !OccursAt(s, pat, i)
    ensures EndsWith(ReplaceAll(s, pat, rep), ReplaceAll(s[|s| - n..], pat, rep))
    decreases |s|
  {
    if |s| == n {
      assert s[|s| - n..] == s;
    } else {
      var k := if StartsWith(s, pat) then |pat| else 1;
      assert k <= |s| - n by {
        assert StartsWith(s, pat) ==> OccursAt(s, pat, 0);
      }
      var t := s[k..];
      assert t[|t| - n..] == s[|s| - n..];
      forall i | |t| - n - |pat| < i < |t| - n
        ensures !OccursAt(t, pat, i)
      {
        if OccursAt(t, pat, i) {
          OccursAtShift(s, pat, k, i);
        }
      }
      ReplaceAllTail(t, pat, rep, n);
      EndsWithPrepend(if StartsWith(s, pat) then rep else [s[0]], ReplaceAll(t, pat, rep), ReplaceAll(s[|s| - n..], pat, rep));
    }
  }

  /** A first character that does not start the pattern is kept. */
  lemma ReplaceAllSkip(c: char, t: string, pat: string, rep: string)
    requires |pat| > 0 && (c != pat[0] || !StartsWith([c] + t, pat))
    ensures ReplaceAll([c] + t, pat, rep) == [c] + ReplaceAll(t, pat, rep)
  {
    assert ([c] + t)[0] == c && ([c] + t)[1..] == t;
  }

  /** An occurrence at the start is replaced. */
  lemma ReplaceAllHit(t: string, pat: string, rep: string)
    requires |pat| > 0
    ensures ReplaceAll(pat + t, pat, rep) == rep + ReplaceAll(t, pat, rep)
  {
    assert (pat + t)[..|pat|] == pat && (pat + t)[|pat|..] == t;
  }

  /** A nonempty slice is its first character and the rest. */
  lemma SliceCons<T>(s: seq<T>, i: nat, j: nat)
    requires i < j <= |s|
    ensures s[i..j] == [s[i]] + s[i + 1..j]
  {
  }

  /** Concatenation regroups freely. */
  lemma ConcatAssoc<T>(a: seq<T>, b: seq<T>, c: seq<T>)
    ensures a + b + c == a + (b + c)
  {
  }

  /** Replacing a single character is a character-wise substitution. */
  function ReplaceChar(s: string, c: char, rep: string): (r: string)
    ensures r == ReplaceAll(s, [c], rep)
  {
    if |s| == 0 then ""
    else if s[0] == c then rep + ReplaceChar(s[1..], c, rep)
    else [s[0]] + ReplaceChar(s[1..], c, rep)
  }

  /** Replacing a character that does not occur changes nothing. */
  lemma {:induction false} ReplaceCharAbsent(s: string, c: char, rep: string)
    requires c !in s
    ensures ReplaceChar(s, c, rep) == s
  {
    if s != [] {
      assert c !in s[1..] by {
        assert forall x :: x in s[1..] ==> x in s;
      }
      ReplaceCharAbsent(s[1..], c, rep);
      assert s == [s[0]] + s[1..];
    }
  }

  /** A character replaced by one character keeps the length, and only
      the replacement and the other characters are left. */
  lemma {:induction false} ReplaceCharKeepsLength(s: string, c: char, d: char)
    ensures |ReplaceChar(s, c, [d])| == |s|
    ensures forall i :: 0 <= i < |s| ==> ReplaceChar(s, c, [d])[i] == (if s[i] == c then d else s[i])
  {
    if s != [] {
      ReplaceCharKeepsLength(s[1..], c, d);
      var r := ReplaceChar(s, c, [d]);
      var t := ReplaceChar(s[1..], c, [d]);
      assert r == [if s[0] == c then d else s[0]] + t;
      forall i | 0 <= i < |s|
        ensures r[i] == (if s[i] == c then d else s[i])
      {
        if i > 0 {
          assert r[i] == t[i - 1] && s[i] == s[1..][i - 1];
        }
      }
    }
  }

  /** `s.replace('_', ' ').replace('-', ' ').title()`: a file or directory name
      made into a title. */
  function SpacedTitle(s: string): string {
    TitleCase(ReplaceChar(ReplaceChar(s, '_', " "), '-', " "))
  }

  /** The title keeps the name's length and has neither `_` nor `-`. */
  lemma SpacedTitleShape(s: string)
    ensures |SpacedTitle(s)| == |s| && '_' !in SpacedTitle(s) && '-' !in SpacedTitle(s)
  {
    var once := ReplaceChar(s, '_', " ");
    var spaced := ReplaceChar(once, '-', " ");
    ReplaceCharKeepsLength(s, '_', ' ');
    ReplaceCharKeepsLength(once, '-', ' ');
    var r := TitleCase(spaced);
    forall i | 0 <= i < |r|
      ensures r[i] != '_' && r[i] != '-'
    {
      assert spaced[i] != '_' && spaced[i] != '-';
    }
  }

  function ToLowerChar(c: char): char {
    if 'A' <= c <= 'Z' then (c as int - 'A' as int + 'a' as int) as char else c
  }

  function ToUpperChar(c: char): char {
    if 'a' <= c <= 'z' then (c as int - 'a' as int + 'A' as int) as char else c
  }

  function ToLower(s: string): (r: string)
    ensures |r| == |s| && forall i :: 0 <= i < |s| ==> r[i] == ToLowerChar(s[i])
  {
    if |s| == 0 then "" else [ToLowerChar(s[0])] + ToLower(s[1..])
  }

  /** A character that has case (Python's "cased" characters, ASCII only). */
  predicate IsCased(c: char) {
    'a' <= c <= 'z' || 'A' <= c <= 'Z'
  }

  /** Python's `s.title()`: a cased character directly after a cased character is
      lowered, every other character is raised. */
  function TitleCase(s: string): string {
    seq(|s|, i requires 0 <= i < |s| =>
      if i > 0 && IsCased(s[i - 1]) then ToLowerChar(s[i]) else ToUpperChar(s[i]))
  }

  /** Python's `<` on `str`: lexicographic by code point. */
  predicate StrLt(a: string, b: string) {
    if |a| == 0 then |b| > 0
    else if |b| == 0 then false
    else if a[0] != b[0] then a[0] < b[0]
    else StrLt(a[1..], b[1..])
  }

  lemma {:induction false} StrLtIrreflexive(a: string)
    ensures !StrLt(a, a)
  {
    if |a| > 0 {
      StrLtIrreflexive(a[1..]);
    }
  }

  lemma {:induction false} StrLtTransitive(a: string, b: string, c: string)
    requires StrLt(a, b) && StrLt(b, c)
    ensures StrLt(a, c)
  {
    if |a| > 0 && |b| > 0 && |c| > 0 && a[0] == b[0] && b[0] == c[0] {
      StrLtTransitive(a[1..], b[1..], c[1..]);
    }
  }

  lemma {:induction false} StrLtTotal(a: string, b: string)
    requires a != b
    ensures StrLt(a, b) || StrLt(b, a)
  {
    if |a| > 0 && |b| > 0 && a[0] == b[0] {
      assert a == [a[0]] + a[1..] && b == [b[0]] + b[1..];
      StrLtTotal(a[1..], b[1..]);
    }
  }

  function DigitChar(d: nat): char
    requires d < 10
  {
    ['0', '1', '2', '3', '4', '5', '6', '7', '8', '9'][d]
  }

  predicate IsDigit(c: char) {
    '0' <= c <= '9'
  }

  /** Python's `str(n)` for a natural number. */
  function NatToString(n: nat): (s: string)
    ensures |s| >= 1 && forall i :: 0 <= i < |s| ==> IsDigit(s[i])
  {
    if n < 10 then [DigitChar(n)] else NatToString(n / 10) + [DigitChar(n % 10)]
  }

  /** Python's `int(s)` for a non-empty string of decimal digits. */
  function ParseNat(s: string): nat
    requires forall i :: 0 <= i < |s| ==> IsDigit(s[i])
  {
    if |s| == 0 then 0
    else
      assert IsDigit(s[|s| - 1]);
      10 * ParseNat(s[..|s| - 1]) + (s[|s| - 1] as int - '0' as int)
  }

  /** Reading back a printed line number gives the number. */
  lemma {:induction false} ParseNatToString(n: nat)
    ensures ParseNat(NatToString(n)) == n
  {
    if n >= 10 {
      ParseNatToString(n / 10);
      var s := NatToString(n);
      assert s[..|s| - 1] == NatToString(n / 10);
    }
  }
}
