/** The records `HTMLGenerator` keeps for every generated page, and the
    sitemap and the `docs.json` navigation it builds from them. Rendering,
    file writes and the clock are not modelled: the page title and date arrive
    as strings. */
module Pages {
  import opened Strings
  import opened Sorting
  import opened Paths

  /** An entry of `generated_pages`. */
  datatype PageRecord = PageRecord(url: string, lastmod: string, priority: string)

  /** An entry of `doc_tree`. */
  datatype DocEntry = DocEntry(title: string, path: string, url: string, level: nat, parentDir: string)

  /** `relative_path.with_suffix('.html')`. */
  function HtmlRelative(rel: seq<string>): (r: seq<string>)
    requires rel != []
    ensures |r| == |rel| && r[..|r| - 1] == rel[..|rel| - 1]
  {
    rel[..|rel| - 1] + [WithSuffix(rel[|rel| - 1], ".html")]
  }

  /** `f"{base_url}/{html_relative.as_posix()}"`. */
  function PageUrl(baseUrl: string, rel: seq<string>): string
    requires rel != []
  {
    baseUrl + "/" + RelStr(HtmlRelative(rel))
  }

  function Priority(rel: seq<string>): string
    requires rel != []
  {
    if rel[|rel| - 1] == "README.md" then "0.8" else "0.6"
  }

  /** `relative_path.parent.as_posix()`, with `.` written as the empty string. */
  function ParentDir(rel: seq<string>): string
    requires rel != []
  {
    var parent := RelStr(rel[..|rel| - 1]);
    if parent != "." then parent else ""
  }

  function PageRecordOf(baseUrl: string, rel: seq<string>, dateModified: string): PageRecord
    requires rel != []
  {
    PageRecord(PageUrl(baseUrl, rel), dateModified, Priority(rel))
  }

  function DocEntryOf(baseUrl: string, rel: seq<string>, title: string): DocEntry
    requires rel != []
  {
    DocEntry(title, RelStr(HtmlRelative(rel)), PageUrl(baseUrl, rel), |rel| - 1, ParentDir(rel))
  }

  /** The page path ends with `.html` and the URL is the base URL, a `/`, and
      that path. */
  lemma DocEntryShape(baseUrl: string, rel: seq<string>, title: string)
    requires rel != []
    ensures var d := DocEntryOf(baseUrl, rel, title);
      EndsWith(d.path, ".html") && d.url == baseUrl + "/" + d.path
  {
    var h := HtmlRelative(rel);
    var name := WithSuffix(rel[|rel| - 1], ".html");
    JoinEndsWithLast(h, "/");
    var j := Join(h, "/");
    assert h[|h| - 1] == name;
    assert j[|j| - 5..] == j[|j| - |name|..][|name| - 5..];
    assert name[|name| - 5..] == ".html";
  }

  /** `level` counts the directories above the page, and `parent_dir` is empty
      exactly for a top-level page; otherwise it is the joined directories. */
  lemma DocEntryPlace(baseUrl: string, rel: seq<string>, title: string)
    requires rel != [] && AllComponents(rel)
    ensures var d := DocEntryOf(baseUrl, rel, title);
      d.level == |rel| - 1 && (d.parentDir == "" <==> |rel| == 1)
      && (|rel| > 1 ==> d.parentDir == Join(rel[..|rel| - 1], "/"))
  {
    if |rel| > 1 {
      var dirs := rel[..|rel| - 1];
      assert IsComponent(dirs[0]);
      JoinStartsWithFirst(dirs, "/");
      var j := Join(dirs, "/");
      assert j != "" && j != "." by {
        assert j[..|dirs[0]|] == dirs[0];
        if |j| == 1 {
          assert dirs[0] == j;
        }
      }
    }
  }

  /** Priority `0.8` goes to exactly the `README.md` pages. */
  lemma PriorityReadme(rel: seq<string>)
    requires rel != []
    ensures Priority(rel) == "0.8" <==> rel[|rel| - 1] == "README.md"
  {
    assert "0.6" != "0.8" by {
      assert "0.6"[2] != "0.8"[2];
    }
  }

  // ---------------------------------------------------------------------------
  // The generator's page lists

  /** The page lists are filled in step: each page has a record and a tree
      entry with the same URL, built from the base URL and its path. */
  predicate PagesAgree(baseUrl: string, pages: seq<PageRecord>, docs: seq<DocEntry>) {
    |pages| == |docs|
    && forall i :: 0 <= i < |docs| ==>
         pages[i].url == docs[i].url && docs[i].url == baseUrl + "/" + docs[i].path
         && EndsWith(docs[i].path, ".html") && (pages[i].priority == "0.8" || pages[i].priority == "0.6")
  }

  /** Recording one more page keeps the lists in step. */
  lemma PagesAgreeAppend(baseUrl: string, pages: seq<PageRecord>, docs: seq<DocEntry>, rel: seq<string>, title: string, dateModified: string)
    requires PagesAgree(baseUrl, pages, docs) && rel != []
    ensures PagesAgree(baseUrl, pages + [PageRecordOf(baseUrl, rel, dateModified)], docs + [DocEntryOf(baseUrl, rel, title)])
  {
    DocEntryShape(baseUrl, rel, title);
    var pages' := pages + [PageRecordOf(baseUrl, rel, dateModified)];
    var docs' := docs + [DocEntryOf(baseUrl, rel, title)];
    forall i | 0 <= i < |docs'|
      ensures pages'[i].url == docs'[i].url && docs'[i].url == baseUrl + "/" + docs'[i].path
      ensures EndsWith(docs'[i].path, ".html") && (pages'[i].priority == "0.8" || pages'[i].priority == "0.6")
    {
      if i < |docs| {
        assert pages'[i] == pages[i] && docs'[i] == docs[i];
      }
    }
  }

  // ---------------------------------------------------------------------------
  // Sitemap

  /** `lastmod.split('T')[0] if 'T' in lastmod else lastmod`: the text up to
      the first `T`. */
  function DateOnly(lastmod: string): (r: string)
    ensures StartsWith(lastmod, r) && 'T' !in r
    ensures |r| < |lastmod| ==> lastmod[|r|] == 'T'
  {
    SplitHead(lastmod, 'T');
    if 'T' in lastmod then Split(lastmod, 'T')[0] else lastmod
  }

  const SitemapHeader: seq<string> := ["<?xml version=\"1.0\" encoding=\"UTF-8\"?>", "<urlset xmlns=\"http://www.sitemaps.org/schemas/sitemap/0.9\">"]
  const SitemapFooter: seq<string> := ["</urlset>"]

  /** The six lines of one page's `<url>` element. */
  function UrlEntry(p: PageRecord): seq<string> {
    ["  <url>", "    <loc>" + p.url + "</loc>", "    <lastmod>" + DateOnly(p.lastmod) + "</lastmod>",
     "    <changefreq>weekly</changefreq>", "    <priority>" + p.priority + "</priority>", "  </url>"]
  }

  /** The `<url>` elements of the pages, in the given order. */
  function UrlEntries(pages: seq<PageRecord>): seq<string> {
    if pages == [] then [] else UrlEntries(pages[..|pages| - 1]) + UrlEntry(pages[|pages| - 1])
  }

  function PageUrlKey(p: PageRecord): seq<string> {
    [p.url]
  }

  /** The lines of `sitemap.xml`: the pages sorted by URL, each as a `<url>`
      element. */
  function Sitemap(pages: seq<PageRecord>): seq<string> {
    SitemapHeader + UrlEntries(SortBy(pages, PageUrlKey)) + SitemapFooter
  }

  /** Six lines per page, page `k` at lines `6k` to `6k + 5`. */
  lemma {:induction false} UrlEntriesShape(pages: seq<PageRecord>)
    ensures |UrlEntries(pages)| == 6 * |pages|
    ensures forall k :: 0 <= k < |pages| ==> UrlEntries(pages)[6 * k..6 * k + 6] == UrlEntry(pages[k])
  {
    if pages != [] {
      var init := pages[..|pages| - 1];
      UrlEntriesShape(init);
      var a := UrlEntries(init);
      var e := UrlEntry(pages[|pages| - 1]);
      forall k | 0 <= k < |pages|
        ensures (a + e)[6 * k..6 * k + 6] == UrlEntry(pages[k])
      {
        if k < |init| {
          assert (a + e)[6 * k..6 * k + 6] == a[6 * k..6 * k + 6];
          assert pages[k] == init[k];
        } else {
          assert (a + e)[6 * k..6 * k + 6] == e;
        }
      }
    }
  }

  /** Sorting keeps the number of pages. */
  lemma SortByLength<T>(s: seq<T>, key: T -> seq<string>)
    ensures |SortBy(s, key)| == |s|
  {
    assert |SortBy(s, key)| == |multiset(SortBy(s, key))| == |multiset(s)| == |s|;
  }

  /** The header takes two lines and the footer one. */
  lemma SitemapLength(body: seq<string>)
    ensures |SitemapHeader + body + SitemapFooter| == 3 + |body|
    ensures (SitemapHeader + body + SitemapFooter)[2 + |body|] == "</urlset>"
  {
  }

  lemma SitemapSlice(body: seq<string>, k: nat)
    requires 6 * k + 6 <= |body|
    ensures (SitemapHeader + body + SitemapFooter)[2 + 6 * k..8 + 6 * k] == body[6 * k..6 * k + 6]
  {
  }

  /** The sitemap lists every page once, sorted by URL (pages with equal URLs
      in the order they were generated), each `<url>` element in its six lines
      after the two header lines, and the closing line last. */
  lemma SitemapShape(pages: seq<PageRecord>)
    ensures var sorted := SortBy(pages, PageUrlKey);
      |sorted| == |pages| && SortedBy(sorted, PageUrlKey) && multiset(sorted) == multiset(pages)
      && |Sitemap(pages)| == 3 + 6 * |pages| && Sitemap(pages)[|Sitemap(pages)| - 1] == "</urlset>"
      && (forall k :: 0 <= k < |pages| ==> Sitemap(pages)[2 + 6 * k..8 + 6 * k] == UrlEntry(sorted[k]))
      && forall u :: WithKey(sorted, PageUrlKey, u) == WithKey(pages, PageUrlKey, u)
  {
    var sorted := SortBy(pages, PageUrlKey);
    forall u
      ensures WithKey(sorted, PageUrlKey, u) == WithKey(pages, PageUrlKey, u)
    {
      SortByStable(pages, PageUrlKey, u);
    }
    SortByLength(pages, PageUrlKey);
    UrlEntriesShape(sorted);
    var body := UrlEntries(sorted);
    assert |body| == 6 * |pages|;
    SitemapLength(body);
    forall k | 0 <= k < |pages|
      ensures Sitemap(pages)[2 + 6 * k..8 + 6 * k] == UrlEntry(sorted[k])
    {
      SitemapSlice(body, k);
    }
  }

  /** One more page adds its `<url>` element. */
  lemma UrlEntriesStep(pages: seq<PageRecord>, i: nat)
    requires i < |pages|
    ensures UrlEntries(pages[..i + 1]) == UrlEntries(pages[..i]) + UrlEntry(pages[i])
  {
    assert pages[..i + 1][..i] == pages[..i];
  }

  // ---------------------------------------------------------------------------
  // docs.json

  /** A `docs.json` item. */
  datatype NavItem = NavItem(title: string, path: string, url: string, level: nat)

  /** A `docs.json` section. */
  datatype Section = Section(title: string, items: seq<NavItem>)

  function ItemOf(d: DocEntry): NavItem {
    NavItem(d.title, d.path, d.url, d.level)
  }

  function DocPathKey(d: DocEntry): seq<string> {
    [d.path]
  }

  /** `Root` for a top-level page, else its first directory made into a title. */
  function SectionName(parentDir: string): string {
    if parentDir == "" then "Root" else SpacedTitle(Split(parentDir, '/')[0])
  }

  /** The first directory of a path that starts with the directory `root`. */
  lemma RootFirstDirectory(parentDir: string)
    requires StartsWith(parentDir, "root") && (|parentDir| == 4 || parentDir[4] == '/')
    ensures Split(parentDir, '/')[0] == "root"
  {
    var d := "root";
    SplitHead(parentDir, '/');
    var head := Split(parentDir, '/')[0];
    assert parentDir[..4] == d;
    assert forall k :: 0 <= k < 4 ==> parentDir[k] == d[k] != '/';
    assert forall k :: 0 <= k < |head| ==> head[k] == parentDir[k] && head[k] != '/';
    assert |head| == 4;
    assert head == parentDir[..4];
  }

  /** `'root'.title()` is `'Root'`. */
  lemma RootTitle()
    ensures SpacedTitle("root") == "Root"
  {
    var d := "root";
    assert '_' !in d && '-' !in d;
    ReplaceCharAbsent(d, '_', " ");
    ReplaceCharAbsent(d, '-', " ");
    var t := TitleCase(d);
    assert t[0] == 'R' && t[1] == 'o' && t[2] == 'o' && t[3] == 't';
  }

  /** A top-level directory named `root` is titled `Root`, so its pages join
      the section of the top-level pages. */
  lemma RootDirectoryJoinsRoot(parentDir: string)
    requires StartsWith(parentDir, "root") && (|parentDir| == 4 || parentDir[4] == '/')
    ensures SectionName(parentDir) == SectionName("")
  {
    RootFirstDirectory(parentDir);
    RootTitle();
  }

  function DocSection(d: DocEntry): string {
    SectionName(d.parentDir)
  }

  /** The section names in first-seen order, each once. */
  function FirstSeen(names: seq<string>): seq<string> {
    if names == [] then []
    else
      var init := FirstSeen(names[..|names| - 1]);
      if names[|names| - 1] in init then init else init + [names[|names| - 1]]
  }

  /** The section of each doc, in order. */
  function SectionsOf(docs: seq<DocEntry>): (r: seq<string>)
    ensures |r| == |docs| && forall j :: 0 <= j < |docs| ==> r[j] == DocSection(docs[j])
  {
    seq(|docs|, j requires 0 <= j < |docs| => DocSection(docs[j]))
  }

  /** The items of the docs that belong to section `name`, in order. */
  function ItemsIn(docs: seq<DocEntry>, name: string): seq<NavItem> {
    if docs == [] then []
    else
      var last := docs[|docs| - 1];
      ItemsIn(docs[..|docs| - 1], name) + (if DocSection(last) == name then [ItemOf(last)] else [])
  }

  /** The sections named by `order`, each with its items from `docs`. */
  function SectionsFor(docs: seq<DocEntry>, order: seq<string>): (r: seq<Section>)
    ensures |r| == |order|
    ensures forall k :: 0 <= k < |order| ==> r[k] == Section(order[k], ItemsIn(docs, order[k]))
  {
    seq(|order|, k requires 0 <= k < |order| => Section(order[k], ItemsIn(docs, order[k])))
  }

  /** The sections of the navigation built from docs taken in the given order:
      one per section name, in the order the names are first met. */
  function Sections(docs: seq<DocEntry>): seq<Section> {
    SectionsFor(docs, FirstSeen(SectionsOf(docs)))
  }

  /** `docs.json`'s sections: the doc tree taken in path order. */
  function DocsJson(docTree: seq<DocEntry>): seq<Section> {
    Sections(SortBy(docTree, DocPathKey))
  }

  /** Each name is listed once, and exactly the names that occur are listed. */
  lemma {:induction false} FirstSeenShape(names: seq<string>)
    ensures forall i, j :: 0 <= i < j < |FirstSeen(names)| ==> FirstSeen(names)[i] != FirstSeen(names)[j]
    ensures forall n :: n in FirstSeen(names) <==> n in names
  {
    if names != [] {
      var init := names[..|names| - 1];
      FirstSeenShape(init);
      assert names == init + [names[|names| - 1]];
    }
  }

  lemma FirstSeenMember(names: seq<string>, x: string)
    ensures x in FirstSeen(names) <==> x in names
  {
    FirstSeenShape(names);
  }

  /** The first-seen list of a prefix is a prefix of the first-seen list. */
  lemma {:induction false} FirstSeenGrows(names: seq<string>, i: nat)
    requires i <= |names|
    ensures |FirstSeen(names[..i])| <= |FirstSeen(names)|
    ensures FirstSeen(names)[..|FirstSeen(names[..i])|] == FirstSeen(names[..i])
    decreases |names|
  {
    if i < |names| {
      var init := names[..|names| - 1];
      assert init[..i] == names[..i];
      FirstSeenGrows(init, i);
    } else {
      assert names[..i] == names;
    }
  }

  /** One more section name adds its section. */
  lemma SectionsForStep(docs: seq<DocEntry>, order: seq<string>, k: nat)
    requires k < |order|
    ensures SectionsFor(docs, order[..k + 1]) == SectionsFor(docs, order[..k]) + [Section(order[k], ItemsIn(docs, order[k]))]
  {
  }

  /** One more doc adds its section name to the first-seen list when it is new. */
  lemma FirstSeenStep(docs: seq<DocEntry>, i: nat)
    requires i < |docs|
    ensures var order := FirstSeen(SectionsOf(docs[..i]));
      FirstSeen(SectionsOf(docs[..i + 1])) == if DocSection(docs[i]) in order then order else order + [DocSection(docs[i])]
  {
    SectionsOfStep(docs, i);
    var names := SectionsOf(docs[..i + 1]);
    assert names[..|names| - 1] == SectionsOf(docs[..i]);
  }

  /** One more doc adds its section name. */
  lemma SectionsOfStep(docs: seq<DocEntry>, i: nat)
    requires i < |docs|
    ensures SectionsOf(docs[..i + 1]) == SectionsOf(docs[..i]) + [DocSection(docs[i])]
  {
  }

  /** One more doc adds its item to its own section only. */
  lemma ItemsInStep(docs: seq<DocEntry>, i: nat, name: string)
    requires i < |docs|
    ensures ItemsIn(docs[..i + 1], name) == ItemsIn(docs[..i], name) + (if DocSection(docs[i]) == name then [ItemOf(docs[i])] else [])
  {
    assert docs[..i + 1][..i] == docs[..i];
  }

  /** A section no doc belongs to has no items. */
  lemma {:induction false} ItemsInAbsent(docs: seq<DocEntry>, name: string)
    requires name !in SectionsOf(docs)
    ensures ItemsIn(docs, name) == []
  {
    if docs != [] {
      var init := docs[..|docs| - 1];
      assert name != SectionsOf(docs)[|docs| - 1];
      assert forall j :: 0 <= j < |init| ==> SectionsOf(init)[j] == SectionsOf(docs)[j];
      ItemsInAbsent(init, name);
    }
  }

  /** Every doc's item is in the items of its section. */
  lemma {:induction false} ItemsInHolds(docs: seq<DocEntry>, j: nat)
    requires j < |docs|
    ensures ItemOf(docs[j]) in ItemsIn(docs, DocSection(docs[j]))
  {
    var init := docs[..|docs| - 1];
    if j < |init| {
      assert init[j] == docs[j];
      ItemsInHolds(init, j);
    }
  }

  /** The items of every section, counted. */
  function TotalItems(sections: seq<Section>): nat {
    if sections == [] then 0 else TotalItems(sections[..|sections| - 1]) + |sections[|sections| - 1].items|
  }

  /** Counting over the names in order, one name at a time. */
  lemma SectionsForLast(docs: seq<DocEntry>, names: seq<string>)
    requires names != []
    ensures var m := |names| - 1;
      TotalItems(SectionsFor(docs, names)) == TotalItems(SectionsFor(docs, names[..m])) + |ItemsIn(docs, names[m])|
  {
    var m := |names| - 1;
    assert SectionsFor(docs, names)[..m] == SectionsFor(docs, names[..m]);
  }

  /** No doc, no items. */
  lemma {:induction false} TotalItemsEmpty(names: seq<string>)
    ensures TotalItems(SectionsFor([], names)) == 0
  {
    if names != [] {
      SectionsForLast([], names);
      TotalItemsEmpty(names[..|names| - 1]);
    }
  }

  /** The last doc adds one item to its own section. */
  lemma ItemsInLastLength(docs: seq<DocEntry>, name: string)
    requires docs != []
    ensures var n := |docs| - 1;
      |ItemsIn(docs, name)| == |ItemsIn(docs[..n], name)| + (if DocSection(docs[n]) == name then 1 else 0)
  {
  }

  /** The last name adds one to its own count. */
  lemma MultisetLast(names: seq<string>, x: string)
    requires names != []
    ensures var m := |names| - 1;
      multiset(names)[x] == multiset(names[..m])[x] + (if names[m] == x then 1 else 0)
  {
    var m := |names| - 1;
    assert names == names[..m] + [names[m]];
  }

  /** One more doc adds one item for each time its section is named. */
  lemma {:induction false} TotalItemsStep(docs: seq<DocEntry>, names: seq<string>)
    requires docs != []
    ensures var n := |docs| - 1;
      TotalItems(SectionsFor(docs, names)) == TotalItems(SectionsFor(docs[..n], names)) + multiset(names)[DocSection(docs[n])]
  {
    if names != [] {
      var m := |names| - 1;
      var n := |docs| - 1;
      SectionsForLast(docs, names);
      SectionsForLast(docs[..n], names);
      TotalItemsStep(docs, names[..m]);
      ItemsInLastLength(docs, names[m]);
      MultisetLast(names, DocSection(docs[n]));
    }
  }

  /** Each name of a list without repeats is named once. */
  lemma {:induction false} DistinctOnce(names: seq<string>, x: string)
    requires forall i, j :: 0 <= i < j < |names| ==> names[i] != names[j]
    requires x in names
    ensures multiset(names)[x] == 1
  {
    var m := |names| - 1;
    var init := names[..m];
    assert names == init + [names[m]];
    if names[m] == x {
      assert x !in init by {
        forall i | 0 <= i < |init|
          ensures init[i] != x
        {
          assert init[i] == names[i];
        }
      }
    } else {
      assert x in init;
      DistinctOnce(init, x);
    }
  }

  /** Sections named once each, covering every doc's section, hold every doc
      exactly once between them. */
  lemma {:induction false} TotalItemsCount(docs: seq<DocEntry>, names: seq<string>)
    requires forall i, j :: 0 <= i < j < |names| ==> names[i] != names[j]
    requires forall j :: 0 <= j < |docs| ==> DocSection(docs[j]) in names
    ensures TotalItems(SectionsFor(docs, names)) == |docs|
  {
    if docs == [] {
      TotalItemsEmpty(names);
    } else {
      var n := |docs| - 1;
      assert forall j :: 0 <= j < n ==> docs[..n][j] == docs[j];
      TotalItemsCount(docs[..n], names);
      TotalItemsStep(docs, names);
      DistinctOnce(names, DocSection(docs[n]));
    }
  }

  /** The navigation has one section per distinct section name, and exactly
      the names of the docs' sections. */
  lemma SectionsTitles(docs: seq<DocEntry>)
    ensures var ss := Sections(docs);
      (forall i, j :: 0 <= i < j < |ss| ==> ss[i].title != ss[j].title)
      && forall n :: (exists k :: 0 <= k < |ss| && ss[k].title == n) <==> n in SectionsOf(docs)
  {
    var names := SectionsOf(docs);
    var order := FirstSeen(names);
    var ss := Sections(docs);
    FirstSeenShape(names);
    forall n
      ensures (exists k :: 0 <= k < |ss| && ss[k].title == n) <==> n in names
    {
      if n in order {
        var k :| 0 <= k < |order| && order[k] == n;
        assert ss[k].title == n;
      }
    }
  }

  /** Each section holds the items of exactly its docs, and none is empty. */
  lemma SectionsItems(docs: seq<DocEntry>)
    ensures var ss := Sections(docs);
      forall k :: 0 <= k < |ss| ==> ss[k].items == ItemsIn(docs, ss[k].title) && ss[k].items != []
  {
    var names := SectionsOf(docs);
    var order := FirstSeen(names);
    var ss := Sections(docs);
    FirstSeenShape(names);
    forall k | 0 <= k < |ss|
      ensures ss[k].items != []
    {
      assert order[k] in order;
      var j :| 0 <= j < |names| && names[j] == order[k];
      ItemsInHolds(docs, j);
    }
  }

  /** Every doc is listed in its own section, and the sections hold as many
      items as there are docs: no doc is listed twice. */
  lemma SectionsCoverDocs(docs: seq<DocEntry>)
    ensures var ss := Sections(docs);
      (forall j :: 0 <= j < |docs| ==> exists k :: 0 <= k < |ss| && ss[k].title == DocSection(docs[j]) && ItemOf(docs[j]) in ss[k].items)
      && TotalItems(ss) == |docs|
  {
    var names := SectionsOf(docs);
    var order := FirstSeen(names);
    var ss := Sections(docs);
    FirstSeenShape(names);
    forall j | 0 <= j < |docs|
      ensures DocSection(docs[j]) in order
      ensures exists k :: 0 <= k < |ss| && ss[k].title == DocSection(docs[j]) && ItemOf(docs[j]) in ss[k].items
    {
      assert names[j] in names;
      var k :| 0 <= k < |order| && order[k] == names[j];
      ItemsInHolds(docs, j);
      assert ss[k].title == DocSection(docs[j]);
    }
    TotalItemsCount(docs, order);
  }

  /** Sections met among the first docs come first, in the same order. */
  lemma SectionsOrder(docs: seq<DocEntry>, i: nat)
    requires i <= |docs|
    ensures var early := FirstSeen(SectionsOf(docs[..i]));
      |early| <= |Sections(docs)|
      && forall k :: 0 <= k < |early| ==> Sections(docs)[k].title == early[k]
  {
    var names := SectionsOf(docs);
    assert SectionsOf(docs[..i]) == names[..i];
    FirstSeenGrows(names, i);
  }

  /** Appending a doc's item to its section's list keeps every list equal to
      the items of its section. */
  lemma AppendItem(docs: seq<DocEntry>, i: nat, items: map<string, seq<NavItem>>, name: string)
    requires i < |docs| && name == DocSection(docs[i]) && name in items
    requires forall n :: n in items ==> items[n] == ItemsIn(docs[..i], n)
    ensures var items' := items[name := items[name] + [ItemOf(docs[i])]];
      forall n :: n in items' ==> items'[n] == ItemsIn(docs[..i + 1], n)
  {
    forall n | n in items
      ensures ItemsIn(docs[..i + 1], n) == if n == name then items[n] + [ItemOf(docs[i])] else items[n]
    {
      ItemsInStep(docs, i, n);
    }
  }

  /** One pass of `generate_docs_json`'s loop: the doc's section is added when
      new, and the doc's item appended to it. */
  method AddDoc(docs: seq<DocEntry>, i: nat, order: seq<string>, items: map<string, seq<NavItem>>)
    returns (order': seq<string>, items': map<string, seq<NavItem>>)
    requires i < |docs| && order == FirstSeen(SectionsOf(docs[..i]))
    requires forall n :: n in items <==> n in order
    requires forall n :: n in items ==> items[n] == ItemsIn(docs[..i], n)
    ensures order' == FirstSeen(SectionsOf(docs[..i + 1]))
    ensures forall n :: n in items' <==> n in order'
    ensures forall n :: n in items' ==> items'[n] == ItemsIn(docs[..i + 1], n)
  {
    var doc := docs[i];
    var sectionName := SectionName(doc.parentDir);
    FirstSeenStep(docs, i);
    order', items' := order, items;
    if sectionName !in items {
      FirstSeenMember(SectionsOf(docs[..i]), sectionName);
      ItemsInAbsent(docs[..i], sectionName);
      order' := order + [sectionName];
      items' := items'[sectionName := []];
    }
    assert forall n :: n in items' <==> n in order';
    AppendItem(docs, i, items', sectionName);
    items' := items'[sectionName := items'[sectionName] + [ItemOf(doc)]];
  }

  class SiteGenerator {
    /** `base_url` without its trailing slashes. */
    const baseUrl: string
    var generatedPages: seq<PageRecord>
    var docTree: seq<DocEntry>

    predicate Valid()
      reads this
    {
      PagesAgree(baseUrl, generatedPages, docTree)
    }

    constructor(baseUrlArg: string)
      ensures baseUrl == RStripChar(baseUrlArg, '/')
      ensures generatedPages == [] && docTree == []
      ensures Valid()
    {
      baseUrl := RStripChar(baseUrlArg, '/');
      generatedPages := [];
      docTree := [];
    }

    /** The bookkeeping of `generate_page` for the page at `rel` below the base
        directory. */
    method GeneratePage(rel: seq<string>, title: string, dateModified: string)
      requires Valid() && rel != []
      modifies this
      ensures generatedPages == old(generatedPages) + [PageRecordOf(baseUrl, rel, dateModified)]
      ensures docTree == old(docTree) + [DocEntryOf(baseUrl, rel, title)]
      ensures Valid()
    {
      var htmlRelative := HtmlRelative(rel);
      var canonicalUrl := baseUrl + "/" + RelStr(htmlRelative);
      var priority := if rel[|rel| - 1] == "README.md" then "0.8" else "0.6";
      generatedPages := generatedPages + [PageRecord(canonicalUrl, dateModified, priority)];
      var parent := RelStr(rel[..|rel| - 1]);
      docTree := docTree + [DocEntry(title, RelStr(htmlRelative), canonicalUrl, |rel| - 1, if parent != "." then parent else "")];
      PagesAgreeAppend(baseUrl, old(generatedPages), old(docTree), rel, title, dateModified);
    }

    /** `generate_sitemap`: the lines written to `sitemap.xml`. */
    method GenerateSitemap() returns (lines: seq<string>)
      ensures lines == Sitemap(generatedPages)
    {
      lines := SitemapHeader;
      var pages := SortBy(generatedPages, PageUrlKey);
      for i := 0 to |pages|
        invariant lines == SitemapHeader + UrlEntries(pages[..i])
      {
        var page := pages[i];
        var dateStr := if 'T' in page.lastmod then Split(page.lastmod, 'T')[0] else page.lastmod;
        var entry := ["  <url>", "    <loc>" + page.url + "</loc>", "    <lastmod>" + dateStr + "</lastmod>",
                      "    <changefreq>weekly</changefreq>", "    <priority>" + page.priority + "</priority>", "  </url>"];
        assert entry == UrlEntry(page);
        UrlEntriesStep(pages, i);
        ConcatAssoc(SitemapHeader, UrlEntries(pages[..i]), entry);
        lines := lines + entry;
      }
      assert pages[..|pages|] == pages;
      lines := lines + SitemapFooter;
    }

    /** `generate_docs_json`: the `sections` of `docs.json`. */
    method GenerateDocsJson() returns (sections: seq<Section>)
      ensures sections == DocsJson(docTree)
    {
      var docs := SortBy(docTree, DocPathKey);
      var order: seq<string> := [];
      var items: map<string, seq<NavItem>> := map[];
      for i := 0 to |docs|
        invariant order == FirstSeen(SectionsOf(docs[..i]))
        invariant forall n :: n in items <==> n in order
        invariant forall n :: n in items ==> items[n] == ItemsIn(docs[..i], n)
      {
        order, items := AddDoc(docs, i, order, items);
      }
      assert docs[..|docs|] == docs;
      sections := [];
      for k := 0 to |order|
        invariant sections == SectionsFor(docs, order[..k])
      {
        assert order[k] in order;
        SectionsForStep(docs, order, k);
        sections := sections + [Section(order[k], items[order[k]])];
      }
      assert order[..|order|] == order;
    }
  }
}
