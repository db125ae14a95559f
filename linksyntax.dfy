/** The markdown link pattern `\[([^\]]+)\]\(([^\)]+)\)` of parser.py as a
    hand-written scanner. Neither group can give back characters to let the
    match go on (the character after each group must be the one the group
    excludes), so a match starting at a `[` is fully determined: the text runs to
    the first `]`, a `(` must follow at once, and the target runs to the first
    `)`. `finditer` and `re.sub` take these matches leftmost first and without
    overlap. */
module LinkSyntax {
  import opened Wrappers

  /** One regex match in a line: `line[start..end]` is `[text](target)`. */
  datatype RawLink = RawLink(start: nat, text: string, target: string, end: nat)

  /** Index of the first `c` at or after `i`, or `|s|` when there is none. */
  function FindFrom(s: string, i: nat, c: char): (k: nat)
    requires i <= |s|
    ensures i <= k <= |s|
    ensures k < |s| ==> s[k] == c
    ensures c !in s[i..k]
    decreases |s| - i
  {
    if i == |s| || s[i] == c then i
    else
      var k := FindFrom(s, i + 1, c);
      assert s[i..k] == [s[i]] + s[i + 1..k];
      k
  }

  /** The match of the pattern that starts exactly at index `i`, if any. */
  function MatchAt(line: string, i: nat): (m: Option<RawLink>)
    requires i <= |line|
    ensures m.Some? ==> m.value.start == i < m.value.end <= |line|
  {
    if i < |line| && line[i] == '[' then
      var close := FindFrom(line, i + 1, ']');
      if close > i + 1 && close + 1 < |line| && line[close + 1] == '(' then
        var paren := FindFrom(line, close + 2, ')');
        if paren > close + 2 && paren < |line| then
          Some(RawLink(i, line[i + 1..close], line[close + 2..paren], paren + 1))
        else None
      else None
    else None
  }

  /** The line spells out the pattern at `m`: `[`, then the text, `](`, the
      target and `)`, where the text holds no `]` and the target no `)`. */
  predicate Spells(line: string, m: RawLink) {
    var a := m.start + 1 + |m.text|;
    var b := a + 2 + |m.target|;
    m.end == b + 1 <= |line|
    && line[m.start] == '[' && line[m.start + 1..a] == m.text
    && line[a] == ']' && line[a + 1] == '('
    && line[a + 2..b] == m.target && line[b] == ')'
    && m.text != "" && ']' !in m.text
    && m.target != "" && ')' !in m.target
  }

  /** A match `MatchAt` reports spells out the pattern. */
  lemma MatchAtSpells(line: string, i: nat)
    requires i <= |line| && MatchAt(line, i).Some?
    ensures Spells(line, MatchAt(line, i).value)
  {
    var close := FindFrom(line, i + 1, ']');
    var paren := FindFrom(line, close + 2, ')');
    assert MatchAt(line, i).value == RawLink(i, line[i + 1..close], line[close + 2..paren], paren + 1);
  }

  /** `FindFrom` stops at the first `c`. */
  lemma {:induction false} FindFromIs(s: string, i: nat, c: char, k: nat)
    requires i <= k < |s| && s[k] == c && c !in s[i..k]
    ensures FindFrom(s, i, c) == k
    decreases k - i
  {
    if i < k {
      assert s[i] == s[i..k][0];
      assert s[i + 1..k] == s[i..k][1..];
      FindFromIs(s, i + 1, c, k);
    }
  }

  /** Two texts that agree from `i` and from `j` on find `c` at the same
      distance. */
  lemma {:induction false} FindFromAligned(s: string, t: string, i: nat, j: nat, c: char)
    requires i <= |s| && j <= |t| && |s| - i == |t| - j
    requires forall k :: i <= k < |s| ==> s[k] == t[k - i + j]
    ensures FindFrom(s, i, c) - i == FindFrom(t, j, c) - j
    decreases |s| - i
  {
    if i < |s| {
      assert s[i] == t[j];
      if s[i] != c {
        FindFromAligned(s, t, i + 1, j + 1, c);
      }
    }
  }

  /** Where a spelled-out match sits, the two scans of `MatchAt` stop at its
      `]` and at its `)`. */
  lemma SpellsScans(line: string, m: RawLink)
    requires Spells(line, m)
    ensures var a := m.start + 1 + |m.text|; var b := a + 2 + |m.target|;
      && FindFrom(line, m.start + 1, ']') == a && FindFrom(line, a + 2, ')') == b
  {
    var a := m.start + 1 + |m.text|;
    var b := a + 2 + |m.target|;
    FindFromIs(line, m.start + 1, ']', a);
    FindFromIs(line, a + 2, ')', b);
  }

  /** Wherever the line spells out the pattern, `MatchAt` reports exactly that match. */
  lemma SpellsMatchAt(line: string, m: RawLink)
    requires Spells(line, m)
    ensures MatchAt(line, m.start) == Some(m)
  {
    var i := m.start;
    var a := i + 1 + |m.text|;
    var b := a + 2 + |m.target|;
    SpellsScans(line, m);
    assert MatchAt(line, i) == Some(RawLink(i, line[i + 1..a], line[a + 2..b], b + 1));
  }

  /** `finditer` from index `i`: the leftmost match at or after `i`, then the
      matches after its end. */
  function MatchesFrom(line: string, i: nat): seq<RawLink>
    requires i <= |line|
    decreases |line| - i
  {
    if i == |line| then []
    else match MatchAt(line, i)
      case Some(m) => [m] + MatchesFrom(line, m.end)
      case None => MatchesFrom(line, i + 1)
  }

  /** The matches in a line: each spells the pattern, they come left to right,
      and they do not overlap. */
  lemma {:induction false} MatchesShape(line: string, i: nat)
    requires i <= |line|
    ensures forall k :: 0 <= k < |MatchesFrom(line, i)| ==>
      i <= MatchesFrom(line, i)[k].start && Spells(line, MatchesFrom(line, i)[k])
    ensures forall k :: 0 <= k < |MatchesFrom(line, i)| - 1 ==>
      MatchesFrom(line, i)[k].end <= MatchesFrom(line, i)[k + 1].start
    decreases |line| - i
  {
    if i < |line| {
      match MatchAt(line, i)
      case Some(m) =>
        MatchesShape(line, m.end);
        MatchAtSpells(line, i);
        ShapeCons(line, i, m, MatchesFrom(line, m.end));
      case None =>
        MatchesShape(line, i + 1);
    }
  }

  /** A match that spells the pattern, followed by matches after its end that
      are in order, gives matches in order. */
  lemma ShapeCons(line: string, i: nat, m: RawLink, rest: seq<RawLink>)
    requires i <= m.start && Spells(line, m)
    requires forall k :: 0 <= k < |rest| ==> m.end <= rest[k].start && Spells(line, rest[k])
    requires forall k :: 0 <= k < |rest| - 1 ==> rest[k].end <= rest[k + 1].start
    ensures forall k :: 0 <= k < |[m] + rest| ==> i <= ([m] + rest)[k].start && Spells(line, ([m] + rest)[k])
    ensures forall k :: 0 <= k < |[m] + rest| - 1 ==> ([m] + rest)[k].end <= ([m] + rest)[k + 1].start
  {
    var ms := [m] + rest;
    forall k | 0 <= k < |ms|
      ensures i <= ms[k].start && Spells(line, ms[k])
    {
      if k > 0 {
        assert ms[k] == rest[k - 1];
      }
    }
    forall k | 0 <= k < |ms| - 1
      ensures ms[k].end <= ms[k + 1].start
    {
      assert ms[k + 1] == rest[k];
      if k > 0 {
        assert ms[k] == rest[k - 1];
      }
    }
  }

  /** Some match of `ms` covers index `p`. */
  predicate Covers(ms: seq<RawLink>, p: nat) {
    exists k :: 0 <= k < |ms| && ms[k].start <= p < ms[k].end
  }

  /** No match is skipped: wherever the pattern matches at or after `i`, that
      index is a reported start or lies inside an earlier reported match. */
  lemma {:induction false} MatchesLeftmost(line: string, i: nat, p: nat)
    requires i <= p < |line| && MatchAt(line, p).Some?
    ensures Covers(MatchesFrom(line, i), p)
    decreases |line| - i
  {
    var ms := MatchesFrom(line, i);
    var here := MatchAt(line, i);
    if here.Some? {
      var m := here.value;
      var rest := MatchesFrom(line, m.end);
      assert ms == [m] + rest;
      if p >= m.end {
        MatchesLeftmost(line, m.end, p);
      }
      CoversCons(m, rest, p);
    } else {
      assert p != i;
      assert ms == MatchesFrom(line, i + 1);
      MatchesLeftmost(line, i + 1, p);
    }
  }

  /** `p` is covered by a list whose head covers it or whose tail covers it. */
  lemma CoversCons(m: RawLink, rest: seq<RawLink>, p: nat)
    requires m.start <= p < m.end || Covers(rest, p)
    ensures Covers([m] + rest, p)
  {
    var ms := [m] + rest;
    if m.start <= p < m.end {
      assert ms[0] == m;
    } else {
      var k :| 0 <= k < |rest| && rest[k].start <= p < rest[k].end;
      assert ms[k + 1] == rest[k];
    }
  }
}
