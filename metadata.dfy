/** The title and the description `extract_metadata` finds for a page: the
    frontmatter values when they are set, otherwise what the markdown body
    yields. Frontmatter parsing itself is not modelled: its `title` and
    `description` values arrive as strings (empty when absent). */
module Metadata {
  import opened Wrappers
  import opened Strings
  import opened LinkSyntax

  // ---------------------------------------------------------------------------
  // Title: `re.search(r'^#\s+(.+)$', content, re.MULTILINE)`

  /** `^` in multi-line mode: the start of the text or of a line. */
  predicate AtLineStart(s: string, p: nat)
    requires p <= |s|
  {
    p == 0 || s[p - 1] == '\n'
  }

  /** The run of whitespace starting at `i`, as far as `\s+` first takes it. */
  function SpaceRun(s: string, i: nat): (n: nat)
    requires i <= |s|
    ensures i + n <= |s|
    ensures forall j :: i <= j < i + n ==> IsSpace(s[j])
    ensures i + n < |s| ==> !IsSpace(s[i + n])
    decreases |s| - i
  {
    if i < |s| && IsSpace(s[i]) then 1 + SpaceRun(s, i + 1) else 0
  }

  /** `(.+)$` tried after `\s+` took the `k` characters from `b`, giving back
      one at a time: the first split that leaves a non-empty rest of line. `.`
      matches anything but `\n`, and `$` the end of the text or a `\n`. */
  function GroupFrom(s: string, b: nat, k: nat): (r: Option<string>)
    requires b + k <= |s|
    ensures r.Some? ==> r.value != [] && '\n' !in r.value
    decreases k
  {
    if k == 0 then None
    else if b + k < |s| && s[b + k] != '\n' then Some(s[b + k..FindFrom(s, b + k, '\n')])
    else GroupFrom(s, b, k - 1)
  }

  /** The group the pattern captures when it is tried at `p`, if it matches there. */
  function HeadingAt(s: string, p: nat): (r: Option<string>)
    requires p <= |s|
    ensures r.Some? ==> r.value != [] && '\n' !in r.value
  {
    if p < |s| && AtLineStart(s, p) && s[p] == '#' then GroupFrom(s, p + 1, SpaceRun(s, p + 1))
    else None
  }

  datatype Heading = Heading(at: nat, text: string)

  /** `re.search` from `p`: the leftmost position where the pattern matches. */
  function FirstHeading(s: string, p: nat): (r: Option<Heading>)
    requires p <= |s|
    ensures r.Some? ==> p <= r.value.at < |s| && HeadingAt(s, r.value.at) == Some(r.value.text)
    ensures r.Some? ==> forall q :: p <= q < r.value.at ==> HeadingAt(s, q).None?
    ensures r.None? ==> forall q :: p <= q <= |s| ==> HeadingAt(s, q).None?
    decreases |s| - p
  {
    if p == |s| then None
    else match HeadingAt(s, p)
      case Some(t) => Some(Heading(p, t))
      case None => FirstHeading(s, p + 1)
  }

  /** The page title: the frontmatter title, else the group of the leftmost
      position where the heading pattern matches (stripped), else the file
      stem made into a title. */
  function Title(fmTitle: string, content: string, stem: string): (r: string)
    ensures fmTitle != "" ==> r == fmTitle
    ensures fmTitle == "" ==>
      forall q :: (0 <= q <= |content| && HeadingAt(content, q).Some?
                   && forall q' :: 0 <= q' < q ==> HeadingAt(content, q').None?)
        ==> r == Strip(HeadingAt(content, q).value)
    ensures fmTitle == "" && (forall q :: 0 <= q <= |content| ==> HeadingAt(content, q).None?) ==>
      r == SpacedTitle(stem)
  {
    if fmTitle != "" then fmTitle
    else match FirstHeading(content, 0)
      case Some(h) => Strip(h.text)
      case None => SpacedTitle(stem)
  }

  /** A first line `# t`, with `t` starting with a non-space, gives the title `t`
      stripped. */
  lemma FirstLineTitle(t: string, rest: string, stem: string)
    requires t != [] && !IsSpace(t[0]) && '\n' !in t
    requires rest == [] || rest[0] == '\n'
    ensures Title("", "# " + t + rest, stem) == Strip(t)
  {
    var s := "# " + t + rest;
    assert s[0] == '#' && s[1] == ' ' && s[2] == t[0];
    assert SpaceRun(s, 2) == 0;
    assert SpaceRun(s, 1) == 1;
    var e := 2 + |t|;
    assert s[2..e] == t;
    if rest == [] {
      assert s[2..] == t;
    } else {
      assert s[e] == rest[0];
      FindFromIs(s, 2, '\n', e);
    }
    assert HeadingAt(s, 0) == Some(t);
  }

  /** A `#` directly followed by another `#` never starts the heading: `\s+`
      needs at least one whitespace character. */
  lemma DoubleHashNoHeading(s: string, p: nat)
    requires p + 1 < |s| && s[p + 1] == '#'
    ensures HeadingAt(s, p).None?
  {
    assert SpaceRun(s, p + 1) == 0;
  }

  /** `\s` matches line breaks too: a lone `#` line takes the next non-blank
      line as the title. */
  lemma LoneHashTakesNextLine(t: string, rest: string, stem: string)
    requires t != [] && !IsSpace(t[0]) && '\n' !in t
    requires rest == [] || rest[0] == '\n'
    ensures Title("", "#\n\n" + t + rest, stem) == Strip(t)
  {
    var s := "#\n\n" + t + rest;
    assert s[0] == '#' && s[1] == '\n' && s[2] == '\n' && s[3] == t[0];
    assert SpaceRun(s, 3) == 0;
    assert SpaceRun(s, 1) == 2;
    var e := 3 + |t|;
    assert s[3..e] == t;
    if rest == [] {
      assert s[3..] == t;
    } else {
      assert s[e] == rest[0];
      FindFromIs(s, 3, '\n', e);
    }
    assert HeadingAt(s, 0) == Some(t);
  }

  /** A body without `#` falls back to the stem title. */
  lemma NoHashStemTitle(content: string, stem: string)
    requires '#' !in content
    ensures Title("", content, stem) == SpacedTitle(stem)
  {
    assert forall q :: 0 <= q <= |content| ==> HeadingAt(content, q).None?;
  }

  // ---------------------------------------------------------------------------
  // Description: the paragraph loop and the markdown cleanup

  /** A stripped line the loop collects: not blank, not a heading, fence, image,
      badge, quote or rule. */
  predicate Collectable(line: string) {
    line != []
    && !StartsWith(line, "#") && !StartsWith(line, "```") && !StartsWith(line, "![")
    && !StartsWith(line, "[![") && !StartsWith(line, ">") && !StartsWith(line, "---")
    && !Contains(line, "shield.io") && !Contains(ToLower(line), "badge")
  }

  /** The order of the two HTML-block tests: as the source writes them (the
      opening test first), or with the closing test first. */
  datatype BlockRule = AsWritten | CloseFirst

  /** The loop's variables after some lines: the `in_html_block` flag, the
      collected paragraphs, and whether the loop has broken off. */
  datatype Scan = Scan(inBlock: bool, paragraphs: seq<string>, stopped: bool)

  /** The paragraph is collected, and the loop breaks off once the joined
      text is longer than 80 characters. */
  function Collect(st: Scan, line: string): Scan {
    var ps := st.paragraphs + [line];
    Scan(st.inBlock, ps, |Join(ps, " ")| > 80)
  }

  predicate Opens(line: string) {
    StartsWith(line, "<") || StartsWith(line, "</")
  }

  predicate Closes(line: string) {
    StartsWith(line, "</") || EndsWith(line, ">")
  }

  /** One iteration of the loop on a raw line. */
  function ScanLine(rule: BlockRule, st: Scan, raw: string): Scan {
    var line := Strip(raw);
    if st.stopped then st
    else if rule.AsWritten? && Opens(line) then st.(inBlock := true)
    else if st.inBlock && Closes(line) then st.(inBlock := false)
    else if st.inBlock then st
    else if rule.CloseFirst? && Opens(line) then st.(inBlock := true)
    else if Collectable(line) then Collect(st, line)
    else st
  }

  /** The loop over the first lines, from the initial state. */
  function ScanLines(rule: BlockRule, lines: seq<string>): Scan {
    if lines == [] then Scan(false, [], false)
    else ScanLine(rule, ScanLines(rule, lines[..|lines| - 1]), lines[|lines| - 1])
  }

  /** A collected paragraph: a collectable, stripped line outside any HTML
      block. */
  predicate IsParagraph(p: string) {
    Collectable(p) && !StartsWith(p, "<") && Strip(p) == p
  }

  /** What the loop keeps true: every paragraph is a collectable stripped line
      outside any HTML block (so it does not start with `<`), the loop has
      broken off exactly when the joined text is over 80 characters, and all
      paragraphs but the last fit in 80. */
  predicate ScanInvariant(st: Scan) {
    (forall k :: 0 <= k < |st.paragraphs| ==> IsParagraph(st.paragraphs[k]))
    && (st.stopped <==> |Join(st.paragraphs, " ")| > 80)
    && (st.paragraphs != [] ==> |Join(st.paragraphs[..|st.paragraphs| - 1], " ")| <= 80)
  }

  /** Joining one more paragraph only makes the text longer. */
  lemma JoinGrows(ps: seq<string>, line: string)
    ensures |Join(ps, " ")| <= |Join(ps + [line], " ")|
  {
    if ps != [] {
      JoinConcat(ps, [line], " ");
    } else {
      assert ps + [line] == [line];
    }
  }

  /** The loop over one more line is one more iteration. */
  lemma ScanLinesStep(rule: BlockRule, lines: seq<string>, i: nat)
    requires i < |lines|
    ensures ScanLines(rule, lines[..i + 1]) == ScanLine(rule, ScanLines(rule, lines[..i]), lines[i])
  {
    assert lines[..i + 1][..i] == lines[..i];
  }

  /** One iteration keeps the invariant. */
  lemma ScanLineKeeps(rule: BlockRule, st: Scan, raw: string)
    requires ScanInvariant(st)
    ensures ScanInvariant(ScanLine(rule, st, raw))
  {
    ScanLineCases(rule, st, raw);
    var r := ScanLine(rule, st, raw);
    if !(r.paragraphs == st.paragraphs && r.stopped == st.stopped) {
      CollectKeeps(st, Strip(raw));
    }
  }

  /** An iteration either leaves the paragraphs and the break flag alone or
      collects the stripped line, which is then a paragraph. */
  lemma ScanLineCases(rule: BlockRule, st: Scan, raw: string)
    ensures var r := ScanLine(rule, st, raw);
      || (r.paragraphs == st.paragraphs && r.stopped == st.stopped)
      || (!st.stopped && IsParagraph(Strip(raw)) && r == Collect(st, Strip(raw)))
  {
    StripIdem(raw);
  }

  /** Collecting a paragraph before the break keeps the invariant. */
  lemma CollectKeeps(st: Scan, line: string)
    requires ScanInvariant(st) && !st.stopped && IsParagraph(line)
    ensures ScanInvariant(Collect(st, line))
  {
    var ps := st.paragraphs + [line];
    assert ps[..|ps| - 1] == st.paragraphs;
    forall k | 0 <= k < |ps|
      ensures IsParagraph(ps[k])
    {
      if k < |st.paragraphs| {
        assert ps[k] == st.paragraphs[k];
      }
    }
  }

  /** The loop keeps the invariant over any lines. */
  lemma {:induction false} ScanLinesInvariant(rule: BlockRule, lines: seq<string>)
    ensures ScanInvariant(ScanLines(rule, lines))
  {
    if lines != [] {
      ScanLinesInvariant(rule, lines[..|lines| - 1]);
      ScanLineKeeps(rule, ScanLines(rule, lines[..|lines| - 1]), lines[|lines| - 1]);
    }
  }

  /** A loop that has broken off reads no more lines. */
  lemma ScanLineStopped(rule: BlockRule, st: Scan, raw: string)
    requires st.stopped
    ensures ScanLine(rule, st, raw) == st
  {
  }

  /** Once the loop has broken off, later lines change nothing. */
  lemma {:induction false} ScanStoppedStays(rule: BlockRule, lines: seq<string>, n: nat)
    requires n <= |lines| && ScanLines(rule, lines[..n]).stopped
    ensures ScanLines(rule, lines) == ScanLines(rule, lines[..n])
    decreases |lines| - n
  {
    if n < |lines| {
      var m := |lines| - 1;
      assert lines[..m][..n] == lines[..n];
      ScanStoppedStays(rule, lines[..m], n);
      var before := ScanLines(rule, lines[..m]);
      ScanLinesStep(rule, lines, m);
      assert lines[..m + 1] == lines;
      ScanLineStopped(rule, before, lines[m]);
    } else {
      assert lines[..n] == lines;
    }
  }

  /** As written, a line starting with `</` re-enters the HTML block: the
      opening test catches it before the closing test is reached. */
  lemma ClosingTagReenters(st: Scan, raw: string)
    requires !st.stopped && StartsWith(Strip(raw), "</")
    ensures ScanLine(AsWritten, st, raw) == st.(inBlock := true)
  {
  }

  /** As written, text after a `<div>` … `</div>` block is skipped; with the
      closing test first it is collected. */
  lemma HtmlBlockSkipsText(o: string, c: string, t: string)
    requires Opens(Strip(o)) && StartsWith(Strip(c), "</")
    requires Collectable(Strip(t)) && !Opens(Strip(t)) && !EndsWith(Strip(t), ">")
    ensures ScanLines(AsWritten, [o, c, t]).paragraphs == []
    ensures ScanLines(CloseFirst, [o, c, t]).paragraphs == [Strip(t)]
  {
    var lines := [o, c, t];
    assert lines[..2][..1] == [o] && [o][..0] == [];
    assert lines[..2] == [o, c] && lines[..3] == lines;
    assert ScanLines(AsWritten, [o]) == Scan(true, [], false);
    assert ScanLines(AsWritten, [o, c]) == Scan(true, [], false);
    assert ScanLines(CloseFirst, [o]) == Scan(true, [], false);
    assert ScanLines(CloseFirst, [o, c]) == Scan(false, [], false);
  }

  /** `re.sub(r'\[([^\]]+)\]\([^\)]+\)', r'\1', s)` from index `i`: every
      markdown link is replaced by its text. */
  function SubLinks(s: string, i: nat): (r: string)
    requires i <= |s|
    ensures |r| <= |s| - i
    ensures forall c :: c in r ==> c in s[i..]
    decreases |s| - i
  {
    if i == |s| then ""
    else match MatchAt(s, i)
      case Some(m) =>
        MatchAtSpells(s, i);
        var rest := SubLinks(s, m.end);
        LinkPiecesFrom(s, m, rest);
        m.text + rest
      case None =>
        var rest := SubLinks(s, i + 1);
        assert s[i..] == [s[i]] + s[i + 1..];
        [s[i]] + rest
  }

  /** A link's text, followed by what comes of the text after the link, holds
      only characters from the link on. */
  lemma LinkPiecesFrom(s: string, m: RawLink, rest: string)
    requires Spells(s, m)
    requires forall c :: c in rest ==> c in s[m.end..]
    ensures forall c :: c in m.text + rest ==> c in s[m.start..]
  {
    assert m.text == s[m.start..][1..1 + |m.text|];
    assert s[m.end..] == s[m.start..][m.end - m.start..];
  }

  /** `re.sub(r'[*_`]', '', s)`: emphasis and code marks removed. */
  function RemoveMarks(s: string): (r: string)
    ensures |r| <= |s|
    ensures forall c :: c in r ==> c in s && c != '*' && c != '_' && c != '`'
  {
    if s == [] then ""
    else
      var rest := RemoveMarks(s[1..]);
      assert forall c :: c in rest ==> c in s;
      if s[0] == '*' || s[0] == '_' || s[0] == '`' then rest else [s[0]] + rest
  }

  /** `re.sub(r'<[^>]+>', '', s)` from index `i`: HTML tags removed. */
  function RemoveTags(s: string, i: nat): (r: string)
    requires i <= |s|
    ensures |r| <= |s| - i
    ensures forall c :: c in r ==> c in s[i..]
    decreases |s| - i
  {
    if i == |s| then ""
    else
      var close := if s[i] == '<' then FindFrom(s, i + 1, '>') else i;
      if s[i] == '<' && close > i + 1 && close < |s| then
        var rest := RemoveTags(s, close + 1);
        assert forall c :: c in rest ==> c in s[i..] by {
          assert s[close + 1..] == s[i..][close + 1 - i..];
        }
        rest
      else
        var rest := RemoveTags(s, i + 1);
        assert s[i..] == [s[i]] + s[i + 1..];
        [s[i]] + rest
  }

  /** The three substitutions, in the source's order. */
  function Cleanup(s: string): string {
    RemoveTags(RemoveMarks(SubLinks(s, 0)), 0)
  }

  /** Cleanup only removes: the result is no longer than the text, holds only
      its characters, and no `*`, `_` or backquote. */
  lemma CleanupShrinks(s: string)
    ensures |Cleanup(s)| <= |s|
    ensures forall c :: c in Cleanup(s) ==> c in s && c != '*' && c != '_' && c != '`'
  {
    var a := SubLinks(s, 0);
    var b := RemoveMarks(a);
    assert s[0..] == s && b[0..] == b;
  }

  /** The description from the collected paragraphs: joined with spaces, cut
      to 300 characters, then cleaned up; empty when nothing was collected. */
  function DescriptionOf(paragraphs: seq<string>): string {
    if paragraphs == [] then ""
    else
      var text := Join(paragraphs, " ");
      Cleanup(if |text| <= 300 then text else text[..300])
  }

  /** The description: the frontmatter one when set, else the one from the text. */
  function Description(fmDescription: string, paragraphs: seq<string>): string {
    if fmDescription != "" then fmDescription else DescriptionOf(paragraphs)
  }

  /** A description found in the text has at most 300 characters and no
      emphasis or code marks. */
  lemma DescriptionBounded(paragraphs: seq<string>)
    ensures |DescriptionOf(paragraphs)| <= 300
    ensures forall c :: c in DescriptionOf(paragraphs) ==> c != '*' && c != '_' && c != '`'
  {
    if paragraphs != [] {
      var text := Join(paragraphs, " ");
      CleanupShrinks(if |text| <= 300 then text else text[..300]);
    }
  }

  /** Text before a link is copied, the link becomes its text, and the
      substitution goes on after it: `see [docs](d.md) here` gives
      `see docs here`. */
  lemma {:induction false} LinkReplaced(s: string, i: nat, m: RawLink)
    requires Spells(s, m) && i <= m.start && '[' !in s[i..m.start]
    ensures SubLinks(s, i) == s[i..m.start] + m.text + SubLinks(s, m.end)
    decreases m.start - i
  {
    if i == m.start {
      SpellsMatchAt(s, m);
      assert s[i..i] == [];
    } else {
      assert s[i] != '[' && '[' !in s[i + 1..m.start] by {
        assert s[i] == s[i..m.start][0];
        assert s[i + 1..m.start] == s[i..m.start][1..];
      }
      SubLinksKept(s, i);
      LinkReplaced(s, i + 1, m);
      var rest := SubLinks(s, m.end);
      SliceCons(s, i, m.start);
      ConcatAssoc([s[i]], s[i + 1..m.start], m.text);
      ConcatAssoc([s[i]], s[i + 1..m.start] + m.text, rest);
    }
  }

  /** A character that does not open a link is kept as it is. */
  lemma SubLinksKept(s: string, i: nat)
    requires i < |s| && s[i] != '['
    ensures SubLinks(s, i) == [s[i]] + SubLinks(s, i + 1)
  {
    assert MatchAt(s, i) == None;
  }

  /** A link inside plain text is replaced by its text and the rest is kept. */
  lemma LinkInText(a: string, text: string, target: string, b: string)
    requires '[' !in a && '[' !in b
    requires text != [] && ']' !in text && target != [] && ')' !in target
    ensures var link := "[" + text + "](" + target + ")";
      SubLinks(a + link + b, 0) == a + text + b
  {
    var link := "[" + text + "](" + target + ")";
    var s := a + link + b;
    var m := RawLink(|a|, text, target, |a| + |link|);
    LinkSpelled(a, text, target, b);
    assert s[0..|a|] == a && s[m.end..] == b by {
      ConcatAssoc(a, link, b);
    }
    LinkReplaced(s, 0, m);
    SubLinksPlainTail(s, m.end, b);
  }

  /** A tail without `[` comes through link substitution unchanged. */
  lemma SubLinksPlainTail(s: string, j: nat, b: string)
    requires j <= |s| && s[j..] == b && '[' !in b
    ensures SubLinks(s, j) == b
  {
    assert forall k :: j <= k < |s| ==> s[k] == b[k - j];
    SubLinksPlain(s, j);
  }

  /** A link written out inside a text spells the pattern at its place. */
  lemma LinkSpelled(a: string, text: string, target: string, b: string)
    requires text != [] && ']' !in text && target != [] && ')' !in target
    ensures var link := "[" + text + "](" + target + ")";
      Spells(a + link + b, RawLink(|a|, text, target, |a| + |link|))
  {
    var link := "[" + text + "](" + target + ")";
    var s := a + link + b;
    var x := |a| + 1 + |text|;
    assert s[|a|..|a| + |link|] == link;
    assert link[1..1 + |text|] == text && link[1 + |text|] == ']' && link[2 + |text|] == '(';
    assert link[3 + |text|..|link| - 1] == target && link[|link| - 1] == ')';
    assert s[|a|] == '[' && s[|a| + 1..x] == text && s[x] == ']' && s[x + 1] == '(';
    assert s[x + 2..x + 2 + |target|] == target && s[x + 2 + |target|] == ')';
  }

  /** Text without `[` has no link to replace. */
  lemma {:induction false} SubLinksPlain(s: string, i: nat)
    requires i <= |s| && forall k :: i <= k < |s| ==> s[k] != '['
    ensures SubLinks(s, i) == s[i..]
    decreases |s| - i
  {
    if i < |s| {
      SubLinksPlain(s, i + 1);
      assert s[i..] == [s[i]] + s[i + 1..];
    }
  }

  /** Text without marks keeps all its characters. */
  lemma {:induction false} RemoveMarksPlain(s: string)
    requires forall k :: 0 <= k < |s| ==> s[k] != '*' && s[k] != '_' && s[k] != '`'
    ensures RemoveMarks(s) == s
  {
    if s != [] {
      RemoveMarksPlain(s[1..]);
      assert s == [s[0]] + s[1..];
    }
  }

  /** Text without `<` has no tag to remove. */
  lemma {:induction false} RemoveTagsPlain(s: string, i: nat)
    requires i <= |s| && forall k :: i <= k < |s| ==> s[k] != '<'
    ensures RemoveTags(s, i) == s[i..]
    decreases |s| - i
  {
    if i < |s| {
      RemoveTagsPlain(s, i + 1);
      assert s[i..] == [s[i]] + s[i + 1..];
    }
  }

  /** Marks are removed character by character: a mark goes, any other
      character stays. */
  lemma RemoveMarksChar(c: char)
    ensures RemoveMarks([c]) == if c == '*' || c == '_' || c == '`' then "" else [c]
  {
    assert [c][1..] == [];
  }

  /** Removing marks works piece by piece: with `RemoveMarksChar`, `*a*` gives `a`. */
  lemma {:induction false} RemoveMarksAppend(a: string, b: string)
    ensures RemoveMarks(a + b) == RemoveMarks(a) + RemoveMarks(b)
  {
    if a == [] {
      assert a + b == b;
    } else {
      assert (a + b)[0] == a[0] && (a + b)[1..] == a[1..] + b;
      RemoveMarksAppend(a[1..], b);
      ConcatAssoc([a[0]], RemoveMarks(a[1..]), RemoveMarks(b));
    }
  }

  /** Text without `<` before `j` is copied up to `j`. */
  lemma {:induction false} RemoveTagsSkip(s: string, i: nat, j: nat)
    requires i <= j <= |s| && '<' !in s[i..j]
    ensures RemoveTags(s, i) == s[i..j] + RemoveTags(s, j)
    decreases j - i
  {
    if i < j {
      assert s[i] == s[i..j][0];
      assert s[i + 1..j] == s[i..j][1..];
      RemoveTagsSkip(s, i + 1, j);
      assert s[i..j] == [s[i]] + s[i + 1..j];
      ConcatAssoc([s[i]], s[i + 1..j], RemoveTags(s, j));
    }
  }

  /** Removing tags after a prefix is removing them from the rest. */
  lemma RemoveTagsShift(p: string, s: string, i: nat)
    requires i <= |s|
    ensures RemoveTags(p + s, |p| + i) == RemoveTags(s, i)
  {
    AgreeAfter(p, s, i);
    RemoveTagsAligned(p + s, s, |p| + i, i);
  }

  /** `p + s` past `p` is `s`. */
  lemma AgreeAfter(p: string, s: string, i: nat)
    requires i <= |s|
    ensures Agree(p + s, s, |p| + i, i)
  {
  }

  /** `s` from `i` on and `t` from `j` on are the same text. */
  predicate Agree(s: string, t: string, i: nat, j: nat) {
    i <= |s| && j <= |t| && |s| - i == |t| - j
    && forall k :: i <= k < |s| ==> s[k] == t[k - i + j]
  }

  /** Two texts that agree from `i` and from `j` on lose the same tags there. */
  lemma {:induction false} RemoveTagsAligned(s: string, t: string, i: nat, j: nat)
    requires Agree(s, t, i, j)
    ensures RemoveTags(s, i) == RemoveTags(t, j)
    decreases |s| - i
  {
    if i < |s| {
      RemoveTagsStep(s, i);
      RemoveTagsStep(t, j);
      TagStepAligned(s, t, i, j);
      RemoveTagsAligned(s, t, TagNext(s, i), TagNext(t, j));
    } else {
      assert j == |t|;
    }
  }

  /** Where tag removal goes on after index `i`: past the `>` of a closed tag
      starting there, else to the next character. */
  function TagNext(s: string, i: nat): nat
    requires i < |s|
  {
    var close := FindFrom(s, i + 1, '>');
    if s[i] == '<' && i + 1 < close < |s| then close + 1 else i + 1
  }

  /** What tag removal keeps of index `i`: nothing at a closed tag, else the
      character. */
  function TagKept(s: string, i: nat): string
    requires i < |s|
  {
    var close := FindFrom(s, i + 1, '>');
    if s[i] == '<' && i + 1 < close < |s| then "" else [s[i]]
  }

  /** One step of tag removal. */
  lemma RemoveTagsStep(s: string, i: nat)
    requires i < |s|
    ensures i < TagNext(s, i) <= |s|
    ensures RemoveTags(s, i) == TagKept(s, i) + RemoveTags(s, TagNext(s, i))
  {
    var close := FindFrom(s, i + 1, '>');
    if s[i] == '<' && i + 1 < close < |s| {
      assert TagKept(s, i) + RemoveTags(s, close + 1) == RemoveTags(s, close + 1);
    }
  }

  /** Texts that agree from `i` and `j` on take the same step. */
  lemma TagStepAligned(s: string, t: string, i: nat, j: nat)
    requires Agree(s, t, i, j) && i < |s|
    ensures TagKept(s, i) == TagKept(t, j) && TagNext(s, i) - i == TagNext(t, j) - j
    ensures Agree(s, t, TagNext(s, i), TagNext(t, j))
  {
    assert s[i] == t[j];
    FindFromAligned(s, t, i + 1, j + 1, '>');
  }

  /** A closed tag `<t>` with a non-empty body is removed, and the text around
      it is kept: `<b>x</b>` gives `x`. */
  lemma TagRemoved(a: string, t: string, b: string)
    requires '<' !in a && t != [] && '>' !in t
    ensures RemoveTags(a + "<" + t + ">" + b, 0) == a + RemoveTags(b, 0)
  {
    var s := a + "<" + t + ">" + b;
    assert s[..|a|] == a;
    TagsAfterPlain(s, a);
    TagSkipped(a, t, b);
  }

  /** Text with no `<` at the start of `s` is kept as it is. */
  lemma TagsAfterPlain(s: string, a: string)
    requires |a| <= |s| && s[..|a|] == a && '<' !in a
    ensures RemoveTags(s, 0) == a + RemoveTags(s, |a|)
  {
    assert s[0..|a|] == a;
    RemoveTagsSkip(s, 0, |a|);
  }

  /** Removal at the `<` of a closed tag goes on past its `>`, with what
      follows the tag. */
  lemma TagSkipped(a: string, t: string, b: string)
    requires t != [] && '>' !in t
    ensures RemoveTags(a + "<" + t + ">" + b, |a|) == RemoveTags(b, 0)
  {
    var p := a + "<" + t + ">";
    var s := p + b;
    var close := |a| + 1 + |t|;
    assert s[|a|] == '<' && s[|a| + 1..close] == t && s[close] == '>';
    TagJump(s, |a|, close, |p|);
    AgreeAfter(p, b, 0);
    RemoveTagsAligned(s, b, |p|, 0);
  }

  /** A `<` whose first `>` comes later, with text between, is a tag that
      removal jumps over. */
  lemma TagJump(s: string, i: nat, close: nat, next: nat)
    requires i + 1 < close < |s| && s[i] == '<' && s[close] == '>' && '>' !in s[i + 1..close]
    requires next == close + 1
    ensures RemoveTags(s, i) == RemoveTags(s, next)
  {
    FindFromIs(s, i + 1, '>', close);
    RemoveTagsStep(s, i);
    assert TagKept(s, i) == "" && TagNext(s, i) == next;
  }

  /** Plain text, with no link, mark or tag syntax, comes through cleanup
      unchanged. */
  lemma CleanupPlain(s: string)
    requires forall k :: 0 <= k < |s| ==> s[k] !in "[*_`<"
    ensures Cleanup(s) == s
  {
    assert forall k :: 0 <= k < |s| ==> s[k] != '[' && s[k] != '*' && s[k] != '_' && s[k] != '`' && s[k] != '<';
    SubLinksPlain(s, 0);
    assert s[0..] == s;
    RemoveMarksPlain(s);
    RemoveTagsPlain(s, 0);
  }

  /** A whole markdown link is replaced by its text. */
  lemma LinkBecomesText(text: string, target: string)
    requires text != [] && ']' !in text && target != [] && ')' !in target
    ensures SubLinks("[" + text + "](" + target + ")", 0) == text
  {
    var s := "[" + text + "](" + target + ")";
    var m := RawLink(0, text, target, |s|);
    var a := 1 + |text|;
    assert s[1..a] == text && s[a] == ']' && s[a + 1] == '(';
    assert s[a + 2..|s| - 1] == target && s[|s| - 1] == ')';
    SpellsMatchAt(s, m);
  }

  /** One pass of the loop body on a raw line: the new flag and paragraphs,
      and whether the loop breaks off here. */
  method ReadLine(rule: BlockRule, inBlock: bool, paragraphs: seq<string>, raw: string)
    returns (inBlock': bool, paragraphs': seq<string>, stop: bool)
    ensures Scan(inBlock', paragraphs', stop) == ScanLine(rule, Scan(inBlock, paragraphs, false), raw)
  {
    var line := Strip(raw);
    inBlock', paragraphs', stop := inBlock, paragraphs, false;
    if rule.AsWritten? && Opens(line) {
      inBlock' := true;
    } else if inBlock && Closes(line) {
      inBlock' := false;
    } else if inBlock {
    } else if rule.CloseFirst? && Opens(line) {
      inBlock' := true;
    } else if Collectable(line) {
      paragraphs' := paragraphs + [line];
      stop := |Join(paragraphs', " ")| > 80;
    }
  }

  /** The description part of `extract_metadata`: the frontmatter description
      when set, otherwise the paragraph loop over the body's lines and the
      cleanup of what it collected. */
  method ExtractDescription(fmDescription: string, content: string, rule: BlockRule) returns (description: string)
    ensures description == Description(fmDescription, ScanLines(rule, Split(content, '\n')).paragraphs)
  {
    description := fmDescription;
    if description == "" {
      var lines := Split(content, '\n');
      var paragraphs: seq<string> := [];
      var inHtmlBlock := false;
      var i := 0;
      while i < |lines|
        invariant 0 <= i <= |lines|
        invariant ScanLines(rule, lines[..i]) == Scan(inHtmlBlock, paragraphs, false)
      {
        var stop;
        ScanLinesStep(rule, lines, i);
        inHtmlBlock, paragraphs, stop := ReadLine(rule, inHtmlBlock, paragraphs, lines[i]);
        if stop {
          ScanStoppedStays(rule, lines, i + 1);
          break;
        }
        i := i + 1;
      }
      assert lines[..|lines|] == lines;
      description := DescriptionOf(paragraphs);
    }
  }
}
