/** Two string rules of the static-site generator (`HTMLGenerator`): which
    documents are published, and how links to markdown pages are rewritten. */
module Site {
  import opened Strings
  import opened Paths

  // ---------------------------------------------------------------------------
  // Publishing

  /** The tag that keeps a document off the site wherever it appears. */
  const DoNotPublishTag := "__DO_NOT_PUBLISH__"

  /** Substrings of the base-relative path that keep a document off the site. */
  const ExcludedPatterns: seq<string> := ["doc/archive", "/archive/", "/.archive/", "/draft/", "/.draft/"]

  /** The loop over the excluded patterns: does any of `patterns` occur in `s`? */
  function AnyPatternIn(patterns: seq<string>, s: string): (r: bool)
    ensures r <==> exists k :: 0 <= k < |patterns| && Contains(s, patterns[k])
  {
    if patterns == [] then false
    else if Contains(s, patterns[0]) then true
    else
      var r := AnyPatternIn(patterns[1..], s);
      assert forall k :: 1 <= k < |patterns| ==> patterns[k] == patterns[1..][k - 1];
      r
  }

  /** `should_publish`. `publishFalse` is the frontmatter test (`publish` or
      `published` is `False`), `content` the whole file text, frontmatter
      included, and `rel` the path below the base directory. */
  function ShouldPublish(publishFalse: bool, content: string, rel: seq<string>): (r: bool)
    ensures r <==> (!publishFalse && !Contains(content, DoNotPublishTag)
                    && forall k :: 0 <= k < |ExcludedPatterns| ==> !Contains(RelStr(rel), ExcludedPatterns[k]))
  {
    if publishFalse then false
    else if Contains(content, DoNotPublishTag) then false
    else !AnyPatternIn(ExcludedPatterns, RelStr(rel))
  }

  /** A document inside a directory named `archive`, `.archive`, `draft` or
      `.draft` that is not at the top level is never published. */
  lemma NestedExcludedDirectory(publishFalse: bool, content: string, rel: seq<string>, i: nat)
    requires 0 < i < |rel| - 1
    requires rel[i] in {"archive", ".archive", "draft", ".draft"}
    ensures !ShouldPublish(publishFalse, content, rel)
  {
    JoinInner(rel, i, "/");
    var k := if rel[i] == "archive" then 1 else if rel[i] == ".archive" then 2 else if rel[i] == "draft" then 3 else 4;
    assert ExcludedPatterns[k] == "/" + rel[i] + "/";
  }

  /** A `doc` directory directly holding an `archive` entry is never published,
      at any depth. */
  lemma DocArchiveExcluded(publishFalse: bool, content: string, rel: seq<string>, i: nat)
    requires i + 1 < |rel| && rel[i] == "doc" && rel[i + 1] == "archive"
    ensures !ShouldPublish(publishFalse, content, rel)
  {
    JoinAdjacent(rel, i, "/");
    assert rel[i] + "/" + rel[i + 1] == ExcludedPatterns[0];
  }

  /** A top-level `archive` directory is not excluded: the patterns need a `/`
      before `archive`, or a `doc/` before it. */
  lemma TopLevelArchivePublished(content: string, name: string)
    requires IsComponent(name) && !Contains(content, DoNotPublishTag)
    ensures ShouldPublish(false, content, ["archive", name])
  {
    var d := "archive";
    var parts := [d, name];
    assert parts[1..] == [name] && Join([name], "/") == name;
    assert Join(parts, "/") == parts[0] + "/" + Join(parts[1..], "/");
    var s := RelStr(parts);
    assert s == d + "/" + name;
    assert s[7] == '/' && s[4] == 'i';
    forall j | 0 <= j < |s| && j != 7
      ensures s[j] != '/'
    {
      if j > 7 {
        assert s[j] == name[j - 8];
      } else {
        assert s[j] == d[j];
      }
    }
    forall p, i | 0 <= p < |ExcludedPatterns| && 0 <= i <= |s| - |ExcludedPatterns[p]|
      ensures !OccursAt(s, ExcludedPatterns[p], i)
    {
      var pat := ExcludedPatterns[p];
      OccursAtChar(s, pat, i, 0);
      OccursAtChar(s, pat, i, 3);
      OccursAtChar(s, pat, i, |pat| - 1);
    }
  }

  // ---------------------------------------------------------------------------
  // Links to markdown pages

  /** The hrefs `convert_markdown_links` rewrites: those ending in `.md` that are
      not absolute web, mail or fragment links. */
  predicate IsPageHref(href: string) {
    EndsWith(href, ".md")
    && !StartsWith(href, "http://") && !StartsWith(href, "https://")
    && !StartsWith(href, "mailto:") && !StartsWith(href, "#")
  }

  /** The rewrite as the source writes it: every `.md` becomes `.html`, and for a
      `./`-prefixed href every `./` is removed. */
  function RewriteHrefAsWritten(href: string): (r: string)
    ensures !IsPageHref(href) ==> r == href
  {
    if IsPageHref(href) then
      var newHref := ReplaceAll(href, ".md", ".html");
      if StartsWith(href, "../") then newHref
      else if StartsWith(href, "./") then ReplaceAll(newHref, "./", "")
      else newHref
    else href
  }

  /** The rewrite with only the leading `./` removed. */
  function RewriteHref(href: string): (r: string)
    ensures !IsPageHref(href) ==> r == href
  {
    if IsPageHref(href) then
      var newHref := ReplaceAll(href, ".md", ".html");
      if StartsWith(href, "../") then newHref
      else if StartsWith(href, "./") then
        ReplaceDotSlashPrefix(href);
        newHref[2..]
      else newHref
    else href
  }

  /** `.md` cannot start inside a leading `./`, so the replacement keeps it. */
  lemma ReplaceDotSlashPrefix(href: string)
    requires StartsWith(href, "./")
    ensures ReplaceAll(href, ".md", ".html") == "./" + ReplaceAll(href[2..], ".md", ".html")
  {
    var t := href[1..];
    assert !StartsWith(href, ".md") by {
      assert href[1] == '/';
    }
    assert !StartsWith(t, ".md") by {
      assert t[0] == '/';
    }
    assert t[1..] == href[2..];
    assert ReplaceAll(t, ".md", ".html") == "/" + ReplaceAll(href[2..], ".md", ".html");
  }

  /** Replacing `.md` in a string that ends with `.md` leaves it ending with
      `.html`: `.md` cannot overlap itself, so its last occurrence is replaced. */
  lemma ReplaceMdEndsHtml(s: string)
    requires EndsWith(s, ".md")
    ensures EndsWith(ReplaceAll(s, ".md", ".html"), ".html")
  {
    var e := s[|s| - 3..];
    assert e == ".md" + [];
    ReplaceAllHit([], ".md", ".html");
    assert s[|s| - 3] == e[0];
    assert |s| >= 5 ==> s[|s| - 5..|s| - 2][2] == s[|s| - 3];
    assert |s| >= 4 ==> s[|s| - 4..|s| - 1][1] == s[|s| - 3];
    ReplaceAllTail(s, ".md", ".html", 3);
  }

  /** The last five characters of a string ending with `.html`. */
  lemma HtmlChars(s: string)
    requires EndsWith(s, ".html")
    ensures |s| >= 5 && s[|s| - 5] == '.' && s[|s| - 4] == 'h' && s[|s| - 3] == 't'
    ensures s[|s| - 2] == 'm' && s[|s| - 1] == 'l'
  {
    var e := s[|s| - 5..];
    assert s[|s| - 5] == e[0] && s[|s| - 4] == e[1] && s[|s| - 3] == e[2];
    assert s[|s| - 2] == e[3] && s[|s| - 1] == e[4];
  }

  /** Removing `./` from a string that ends with `.html` leaves it ending with
      `.html`: the dot of `.html` is followed by `h`, not `/`. */
  lemma RemoveDotSlashEndsHtml(s: string)
    requires EndsWith(s, ".html")
    ensures EndsWith(ReplaceAll(s, "./", ""), ".html")
  {
    HtmlChars(s);
    var e := s[|s| - 5..];
    assert e[0] == '.' && e[1] == 'h' && e[2] == 't' && e[3] == 'm' && e[4] == 'l';
    assert '.' !in e[1..] by {
      forall j | 1 <= j < |e|
        ensures e[j] != '.'
      {
      }
    }
    ReplaceAllHeadOnly(e, "./", "");
    assert |s| >= 6 ==> s[|s| - 6..|s| - 4][1] == s[|s| - 5];
    ReplaceAllTail(s, "./", "", 5);
  }

  /** A rewritten href, as the source writes it, ends with `.html`. */
  lemma RewriteEndsHtmlAsWritten(href: string)
    requires IsPageHref(href)
    ensures EndsWith(RewriteHrefAsWritten(href), ".html")
  {
    ReplaceMdEndsHtml(href);
    RemoveDotSlashEndsHtml(ReplaceAll(href, ".md", ".html"));
  }

  /** A rewritten href ends with `.html`. */
  lemma RewriteEndsHtml(href: string)
    requires IsPageHref(href)
    ensures EndsWith(RewriteHref(href), ".html")
  {
    if StartsWith(href, "./") && !StartsWith(href, "../") {
      var h := href[2..];
      assert href[1] == href[..2][1] && href[|href| - 3] == href[|href| - 3..][0] && href[|href| - 2] == href[|href| - 3..][1];
      assert |href| >= 5;
      assert h[|h| - 3..] == href[|href| - 3..];
      ReplaceMdEndsHtml(h);
      ReplaceDotSlashPrefix(href);
      var newHref := ReplaceAll(href, ".md", ".html");
      assert newHref[2..] == ReplaceAll(h, ".md", ".html");
    } else {
      ReplaceMdEndsHtml(href);
    }
  }

  /** With only the leading `./` removed, `./x.md` and `x.md` lead to the same
      page. */
  lemma DotSlashSameTarget(h: string)
    requires IsPageHref(h) && !StartsWith(h, "./")
    ensures RewriteHref("./" + h) == RewriteHref(h)
  {
    var href := "./" + h;
    assert href[|href| - 3..] == h[|h| - 3..];
    assert href[..2] == "./";
    assert href[2..] == h;
    assert !StartsWith(href, "../") by {
      assert href[1] == '/';
    }
    assert IsPageHref(href) by {
      assert href[0] == '.';
    }
    ReplaceDotSlashPrefix(href);
  }

  /** A non-empty run of lower-case letters: a directory or file name with no
      dot, slash, colon or hash in it. */
  predicate IsWord(x: string) {
    x != [] && forall k :: 0 <= k < |x| ==> 'a' <= x[k] <= 'z'
  }

  /** Where the dots of `a/../b` are. */
  lemma UpLinkChars(a: string, b: string, x: string)
    requires IsWord(a) && IsWord(b) && x == a + "/../" + b
    ensures |x| == |a| + 4 + |b| && x[0] == a[0]
    ensures x[|a|] == '/' && x[|a| + 1] == '.' && x[|a| + 2] == '.' && x[|a| + 3] == '/'
    ensures forall i :: 0 <= i < |x| ==> (x[i] == '.' <==> i == |a| + 1 || i == |a| + 2) && x[i] != ':'
  {
    forall i | 0 <= i < |x|
      ensures (x[i] == '.' <==> i == |a| + 1 || i == |a| + 2) && x[i] != ':'
    {
      if i < |a| {
        assert x[i] == a[i];
      } else if i >= |a| + 4 {
        assert x[i] == b[i - |a| - 4];
      }
    }
  }

  /** `a/../b` holds no `.md`. */
  lemma UpLinkNoMd(a: string, b: string, x: string)
    requires IsWord(a) && IsWord(b) && x == a + "/../" + b
    ensures forall i :: 0 <= i <= |"./" + x| - 3 ==> !OccursAt("./" + x, ".md", i)
    ensures forall i :: 0 <= i <= |x| - 3 ==> !OccursAt(x, ".md", i)
  {
    UpLinkChars(a, b, x);
    var d := "./" + x;
    forall i | 0 <= i <= |d| - 3
      ensures !OccursAt(d, ".md", i)
    {
      OccursAtChar(d, ".md", i, 0);
      OccursAtChar(d, ".md", i, 1);
      assert i >= 2 ==> d[i] == x[i - 2] && d[i + 1] == x[i - 1];
      assert d[1] == '/';
    }
    forall i | 0 <= i <= |x| - 3
      ensures !OccursAt(x, ".md", i)
    {
      OccursAtChar(x, ".md", i, 0);
      OccursAtChar(x, ".md", i, 1);
    }
  }

  /** A word followed by `/.` holds no `./`. */
  lemma WordSlashDotNoDotSlash(a: string)
    requires IsWord(a)
    ensures forall i :: 0 <= i <= |a + "/."| - 2 ==> !OccursAt(a + "/.", "./", i)
  {
    var u := a + "/.";
    forall i | 0 <= i <= |u| - 2
      ensures !OccursAt(u, "./", i)
    {
      OccursAtChar(u, "./", i, 0);
      assert i < |a| ==> u[i] == a[i];
      assert i == |a| ==> u[i] == '/';
    }
  }

  /** A word followed by `.html` holds no `./`. */
  lemma WordHtmlNoDotSlash(b: string)
    requires IsWord(b)
    ensures forall i :: 0 <= i <= |b + ".html"| - 2 ==> !OccursAt(b + ".html", "./", i)
  {
    var h := ".html";
    assert h[0] == '.' && h[1] == 'h' && h[2] == 't' && h[3] == 'm';
    var v := b + h;
    forall i | 0 <= i <= |v| - 2
      ensures !OccursAt(v, "./", i)
    {
      OccursAtChar(v, "./", i, 0);
      OccursAtChar(v, "./", i, 1);
      assert i < |b| ==> v[i] == b[i];
      assert |b| <= i ==> v[i] == h[i - |b|] && v[i + 1] == h[i + 1 - |b|];
    }
  }

  /** The `./` removal on `./a/../b.html`, as written. */
  lemma UpLinkDotSlashRemoved(a: string, b: string, x: string)
    requires IsWord(a) && IsWord(b) && x == a + "/../" + b
    ensures ReplaceAll("./" + x + ".html", "./", "") == a + "/." + b + ".html"
  {
    var u := a + "/.";
    var v := b + ".html";
    var w := x + ".html";
    ConcatAssoc("./", x, ".html");
    ReplaceAllHit(w, "./", "");
    assert "/." + "./" == "/../";
    ConcatAssoc(a, "/.", "./");
    ConcatAssoc(a + "/../", b, ".html");
    ConcatAssoc(u + "./", b, ".html");
    WordSlashDotNoDotSlash(a);
    WordHtmlNoDotSlash(b);
    ReplaceAllFirstHit(u, "./", "", v);
    ReplaceAllNone(v, "./", "");
    assert u + "" == u;
    ConcatAssoc(u, b, ".html");
  }

  /** A string with no `:` starts with none of the prefixes that name a scheme. */
  lemma NoColonNoScheme(h: string, p: string, k: nat)
    requires k < |p| && p[k] == ':' && forall i :: 0 <= i < |h| ==> h[i] != ':'
    ensures !StartsWith(h, p)
  {
    if |p| <= |h| {
      assert h[..|p|][k] == h[k];
    }
  }

  /** `a/../b.md` and `./a/../b.md` are links to pages. */
  lemma UpLinkIsPage(a: string, b: string, x: string)
    requires IsWord(a) && IsWord(b) && x == a + "/../" + b
    ensures IsPageHref(x + ".md") && !StartsWith(x + ".md", "../") && !StartsWith(x + ".md", "./")
    ensures IsPageHref("./" + x + ".md") && !StartsWith("./" + x + ".md", "../") && StartsWith("./" + x + ".md", "./")
  {
    UpLinkChars(a, b, x);
    var md := ".md";
    var h := x + md;
    assert h[|h| - 3..] == md && h[0] == x[0];
    forall i | 0 <= i < |h|
      ensures h[i] != ':'
    {
      assert i < |x| ==> h[i] == x[i];
      assert |x| <= i ==> h[i] == md[i - |x|];
    }
    NoColonNoScheme(h, "http://", 4);
    NoColonNoScheme(h, "https://", 5);
    NoColonNoScheme(h, "mailto:", 6);
    var href := "./" + x + md;
    assert href[|href| - 3..] == md && href[..2] == "./" && href[0] == '.' && href[1] == '/';
  }

  /** `.md` becomes `.html` at the end of both hrefs, and nowhere else. */
  lemma UpLinkMdReplaced(a: string, b: string, x: string)
    requires IsWord(a) && IsWord(b) && x == a + "/../" + b
    ensures ReplaceAll(x + ".md", ".md", ".html") == x + ".html"
    ensures ReplaceAll("./" + x + ".md", ".md", ".html") == "./" + x + ".html"
  {
    UpLinkNoMd(a, b, x);
    var md := ".md";
    assert md[0] !in md[1..];
    var e: string := [];
    assert ReplaceAll(e, md, ".html") == e;
    ReplaceAllFirstHit(x, md, ".html", e);
    assert x + md + e == x + md;
    var d := "./" + x;
    ReplaceAllFirstHit(d, md, ".html", e);
    assert d + md + e == d + md;
  }

  /** As written, removing every `./` breaks a `../` later in the href: the
      link `./a/../b.md` becomes `a/.b.html`, while `a/../b.md` becomes
      `a/../b.html`. */
  lemma DotSlashAsWrittenBreaks(a: string, b: string, x: string)
    requires IsWord(a) && IsWord(b) && x == a + "/../" + b
    ensures RewriteHrefAsWritten("./" + x + ".md") == a + "/." + b + ".html"
    ensures RewriteHrefAsWritten(x + ".md") == x + ".html"
  {
    UpLinkIsPage(a, b, x);
    UpLinkMdReplaced(a, b, x);
    UpLinkDotSlashRemoved(a, b, x);
  }

  /** With only the leading `./` removed, `./a/../b.md` leads to `a/../b.html`
      like `a/../b.md`. */
  lemma UpLinkRewritten(a: string, b: string, x: string)
    requires IsWord(a) && IsWord(b) && x == a + "/../" + b
    ensures RewriteHref("./" + x + ".md") == x + ".html"
    ensures RewriteHref(x + ".md") == x + ".html"
  {
    UpLinkIsPage(a, b, x);
    UpLinkMdReplaced(a, b, x);
    assert ("./" + x + ".html")[2..] == x + ".html";
  }
}
