/** `GraphBuilder` of graph.py: accumulates the links of all files into a node
    set, an external-node set and an edge list, and prints them as a Graphviz
    DOT digraph. Whether a file exists on disk is the input set `existing`; the
    MD5-based id of an external node is the input function `extId`. */
module Graph {
  import opened Wrappers
  import opened Strings
  import opened Sorting
  import opened Paths
  import opened Parser

  // ---------------------------------------------------------------------------
  // Edges

  /** Where an edge points: a file path (internal links) or a URL (external links). */
  datatype EdgeTarget = FileNode(path: Path) | UrlNode(url: string)

  /** One entry of `self.edges`; `is_external` is `target.UrlNode?`. */
  datatype Edge = Edge(source: Path, target: EdgeTarget, labelText: string)

  /** The edge label `"<text> (L<line>)"`. */
  function EdgeLabel(l: Link): string {
    l.linkText + " (L" + NatToString(l.lineNumber) + ")"
  }

  /** The edge `add_links` appends for `l` when it appends one: external links
      point at their URL, internal ones at the resolved target. */
  function EdgeFor(baseDir: Path, l: Link): (e: Edge)
    ensures e.source == l.sourceFile && e.labelText == EdgeLabel(l)
    ensures e.target.UrlNode? <==> l.isExternal
  {
    if l.isExternal then Edge(l.sourceFile, UrlNode(l.target), EdgeLabel(l))
    else Edge(l.sourceFile, FileNode(ResolveInternalLink(l.sourceFile, l.target, baseDir)), EdgeLabel(l))
  }

  /** The file nodes one link adds: its source always, its resolved target when internal. */
  function LinkNodes(baseDir: Path, l: Link): set<Path> {
    {l.sourceFile} + if l.isExternal then {} else {ResolveInternalLink(l.sourceFile, l.target, baseDir)}
  }

  /** The external node one link adds: its URL, when external links are included. */
  function LinkUrls(includeExternal: bool, l: Link): set<string> {
    if l.isExternal && includeExternal then {l.target} else {}
  }

  /** The edge one link adds: none for an external link when external links are
      left out. */
  function LinkEdges(baseDir: Path, includeExternal: bool, l: Link): seq<Edge> {
    if l.isExternal && !includeExternal then [] else [EdgeFor(baseDir, l)]
  }

  /** What `add_links` adds to `nodes`. */
  function NodesOf(baseDir: Path, links: seq<Link>): set<Path> {
    if links == [] then {}
    else NodesOf(baseDir, links[..|links| - 1]) + LinkNodes(baseDir, links[|links| - 1])
  }

  /** What `add_links` adds to `external_nodes`. */
  function UrlsOf(includeExternal: bool, links: seq<Link>): set<string> {
    if links == [] then {}
    else
      UrlsOf(includeExternal, links[..|links| - 1]) + LinkUrls(includeExternal, links[|links| - 1])
  }

  /** What `add_links` appends to `edges`. */
  function EdgesOf(baseDir: Path, includeExternal: bool, links: seq<Link>): seq<Edge> {
    if links == [] then []
    else
      EdgesOf(baseDir, includeExternal, links[..|links| - 1]) + LinkEdges(baseDir, includeExternal, links[|links| - 1])
  }

  /** The internal links of `links`, in order. */
  function InternalLinks(links: seq<Link>): (r: seq<Link>)
    ensures forall k :: 0 <= k < |r| ==> !r[k].isExternal
  {
    if links == [] then []
    else
      var l := links[|links| - 1];
      InternalLinks(links[..|links| - 1]) + if l.isExternal then [] else [l]
  }

  // ---------------------------------------------------------------------------
  // What `add_links` adds

  /** Every link's source becomes a node, external or not; an internal link's
      resolved target becomes a node whether or not it exists; nothing else does. */
  lemma NodesOfIff(baseDir: Path, links: seq<Link>, x: Path)
    ensures x in NodesOf(baseDir, links) <==>
      exists i :: 0 <= i < |links| && (x == links[i].sourceFile
        || (!links[i].isExternal && x == ResolveInternalLink(links[i].sourceFile, links[i].target, baseDir)))
  {
    if x in NodesOf(baseDir, links) {
      NodesOfSound(baseDir, links, x);
    }
    forall i | 0 <= i < |links| && x in LinkNodes(baseDir, links[i])
      ensures x in NodesOf(baseDir, links)
    {
      NodesOfComplete(baseDir, links, i, x);
    }
  }

  lemma {:induction false} NodesOfSound(baseDir: Path, links: seq<Link>, x: Path)
    requires x in NodesOf(baseDir, links)
    ensures exists i :: 0 <= i < |links| && x in LinkNodes(baseDir, links[i])
  {
    var init := links[..|links| - 1];
    if x in NodesOf(baseDir, init) {
      NodesOfSound(baseDir, init, x);
      var i :| 0 <= i < |init| && x in LinkNodes(baseDir, init[i]);
      assert links[i] == init[i];
    } else {
      assert x in LinkNodes(baseDir, links[|links| - 1]);
    }
  }

  lemma {:induction false} NodesOfComplete(baseDir: Path, links: seq<Link>, i: nat, x: Path)
    requires i < |links| && x in LinkNodes(baseDir, links[i])
    ensures x in NodesOf(baseDir, links)
  {
    var init := links[..|links| - 1];
    if i < |links| - 1 {
      assert init[i] == links[i];
      NodesOfComplete(baseDir, init, i, x);
    }
  }

  /** A URL becomes an external node exactly when external links are included
      and some external link targets it. */
  lemma {:induction false} UrlsOfIff(includeExternal: bool, links: seq<Link>, u: string)
    ensures u in UrlsOf(includeExternal, links) <==>
      includeExternal && exists i :: 0 <= i < |links| && links[i].isExternal && links[i].target == u
  {
    if links != [] {
      var init := links[..|links| - 1];
      UrlsOfIff(includeExternal, init, u);
      if exists i :: 0 <= i < |links| && links[i].isExternal && links[i].target == u {
        var i :| 0 <= i < |links| && links[i].isExternal && links[i].target == u;
        if i < |links| - 1 {
          assert init[i] == links[i];
        }
      }
      if exists i :: 0 <= i < |init| && init[i].isExternal && init[i].target == u {
        var i :| 0 <= i < |init| && init[i].isExternal && init[i].target == u;
        assert links[i] == init[i];
      }
    }
  }

  /** With external links included, every link appends exactly one edge, in
      link order: edges are never merged or dropped. */
  lemma {:induction false} EdgesOfIncluded(baseDir: Path, links: seq<Link>)
    ensures |EdgesOf(baseDir, true, links)| == |links|
    ensures forall i :: 0 <= i < |links| ==> EdgesOf(baseDir, true, links)[i] == EdgeFor(baseDir, links[i])
  {
    if links != [] {
      var init := links[..|links| - 1];
      EdgesOfIncluded(baseDir, init);
      forall i | 0 <= i < |links| - 1
        ensures EdgesOf(baseDir, true, links)[i] == EdgeFor(baseDir, links[i])
      {
        assert init[i] == links[i];
      }
    }
  }

  /** Without external links, the edges are those of the internal links alone,
      one each, and none of them points at a URL. */
  lemma {:induction false} EdgesOfExcluded(baseDir: Path, links: seq<Link>)
    ensures EdgesOf(baseDir, false, links) == EdgesOf(baseDir, true, InternalLinks(links))
    ensures forall k :: 0 <= k < |EdgesOf(baseDir, false, links)| ==> EdgesOf(baseDir, false, links)[k].target.FileNode?
  {
    if links != [] {
      var init := links[..|links| - 1];
      var l := links[|links| - 1];
      EdgesOfExcluded(baseDir, init);
      var internal := InternalLinks(init);
      if !l.isExternal {
        var all := internal + [l];
        assert InternalLinks(links) == all;
        assert all[..|all| - 1] == internal && all[|all| - 1] == l;
        assert EdgesOf(baseDir, true, all) == EdgesOf(baseDir, true, internal) + [EdgeFor(baseDir, l)];
      } else {
        assert InternalLinks(links) == internal;
      }
    }
  }

  // ---------------------------------------------------------------------------
  // The graph invariant

  /** The edge's endpoints are recorded: its source and file target in `nodes`,
      its URL target in `urls`. */
  predicate EdgeWithin(e: Edge, nodes: set<Path>, urls: set<string>) {
    e.source in nodes
    && match e.target
       case FileNode(p) => p in nodes
       case UrlNode(u) => u in urls
  }

  predicate EdgesWithin(edges: seq<Edge>, nodes: set<Path>, urls: set<string>) {
    forall i :: 0 <= i < |edges| ==> EdgeWithin(edges[i], nodes, urls)
  }

  /** The edges `add_links` appends have their endpoints among the nodes it adds. */
  lemma {:induction false} EdgesOfWithin(baseDir: Path, includeExternal: bool, links: seq<Link>)
    ensures EdgesWithin(EdgesOf(baseDir, includeExternal, links), NodesOf(baseDir, links), UrlsOf(includeExternal, links))
  {
    if links != [] {
      var init := links[..|links| - 1];
      EdgesOfWithin(baseDir, includeExternal, init);
      var before := EdgesOf(baseDir, includeExternal, init);
      var all := EdgesOf(baseDir, includeExternal, links);
      forall i | 0 <= i < |all|
        ensures EdgeWithin(all[i], NodesOf(baseDir, links), UrlsOf(includeExternal, links))
      {
        if i < |before| {
          assert all[i] == before[i];
        }
      }
    }
  }

  /** Adding nodes, URLs and edges whose endpoints are recorded keeps every edge's
      endpoints recorded. */
  lemma EdgesWithinGrow(edges: seq<Edge>, nodes: set<Path>, urls: set<string>,
                        more: seq<Edge>, moreNodes: set<Path>, moreUrls: set<string>)
    requires EdgesWithin(edges, nodes, urls) && EdgesWithin(more, moreNodes, moreUrls)
    ensures EdgesWithin(edges + more, nodes + moreNodes, urls + moreUrls)
  {
    forall i | 0 <= i < |edges + more|
      ensures EdgeWithin((edges + more)[i], nodes + moreNodes, urls + moreUrls)
    {
      if i < |edges| {
        assert (edges + more)[i] == edges[i];
      } else {
        assert (edges + more)[i] == more[i - |edges|];
      }
    }
  }

  /** Without external links nothing is added to `external_nodes` and no edge
      points at a URL. */
  lemma {:induction false} UrlsOfExcluded(links: seq<Link>)
    ensures UrlsOf(false, links) == {}
  {
    if links != [] {
      UrlsOfExcluded(links[..|links| - 1]);
    }
  }

  /** One more link adds exactly that link's nodes, URL and edge. */
  lemma AddLinksStep(baseDir: Path, includeExternal: bool, links: seq<Link>, i: nat)
    requires i < |links|
    ensures NodesOf(baseDir, links[..i + 1]) == NodesOf(baseDir, links[..i]) + LinkNodes(baseDir, links[i])
    ensures UrlsOf(includeExternal, links[..i + 1]) == UrlsOf(includeExternal, links[..i]) + LinkUrls(includeExternal, links[i])
    ensures EdgesOf(baseDir, includeExternal, links[..i + 1])
         == EdgesOf(baseDir, includeExternal, links[..i]) + LinkEdges(baseDir, includeExternal, links[i])
  {
    var done := links[..i + 1];
    assert done[..i] == links[..i] && done[i] == links[i];
  }

  lemma UnionAssoc<T>(a: set<T>, b: set<T>, c: set<T>)
    ensures a + b + c == a + (b + c)
  {
  }

  /** The invariant `GraphBuilder` keeps: every edge's endpoints are recorded, and
      without external links there are no external nodes and no URL edges. */
  predicate GraphInvariant(includeExternal: bool, nodes: set<Path>, urls: set<string>, edges: seq<Edge>) {
    EdgesWithin(edges, nodes, urls)
    && (!includeExternal ==> urls == {} && forall i :: 0 <= i < |edges| ==> edges[i].target.FileNode?)
  }

  /** `add_links` keeps the graph invariant, whatever links it is given. */
  lemma AddLinksKeepsInvariant(baseDir: Path, includeExternal: bool, nodes: set<Path>, urls: set<string>,
                               edges: seq<Edge>, links: seq<Link>)
    requires GraphInvariant(includeExternal, nodes, urls, edges)
    ensures GraphInvariant(includeExternal, nodes + NodesOf(baseDir, links), urls + UrlsOf(includeExternal, links),
                           edges + EdgesOf(baseDir, includeExternal, links))
  {
    var more := EdgesOf(baseDir, includeExternal, links);
    EdgesOfWithin(baseDir, includeExternal, links);
    EdgesWithinGrow(edges, nodes, urls, more, NodesOf(baseDir, links), UrlsOf(includeExternal, links));
    if !includeExternal {
      UrlsOfExcluded(links);
      EdgesOfExcluded(baseDir, links);
      forall i | 0 <= i < |edges + more|
        ensures (edges + more)[i].target.FileNode?
      {
        if i < |edges| {
          assert (edges + more)[i] == edges[i];
        } else {
          assert (edges + more)[i] == more[i - |edges|];
        }
      }
    }
  }

  // ---------------------------------------------------------------------------
  // Connected nodes

  /** `_get_connected_nodes`: the sources and targets of the internal edges. */
  function Connected(edges: seq<Edge>): set<Path> {
    if edges == [] then {}
    else
      var e := edges[|edges| - 1];
      Connected(edges[..|edges| - 1]) + match e.target
        case FileNode(p) => {e.source, p}
        case UrlNode(_) => {}
  }

  /** A node is connected exactly when it is an endpoint of an internal edge. */
  lemma {:induction false} ConnectedIff(edges: seq<Edge>, x: Path)
    ensures x in Connected(edges) <==>
      exists i :: 0 <= i < |edges| && edges[i].target.FileNode? && (x == edges[i].source || x == edges[i].target.path)
  {
    if edges != [] {
      var init := edges[..|edges| - 1];
      ConnectedIff(init, x);
      if exists i :: 0 <= i < |edges| && edges[i].target.FileNode? && (x == edges[i].source || x == edges[i].target.path) {
        var i :| 0 <= i < |edges| && edges[i].target.FileNode? && (x == edges[i].source || x == edges[i].target.path);
        if i < |edges| - 1 {
          assert init[i] == edges[i];
        }
      }
      if exists i :: 0 <= i < |init| && init[i].target.FileNode? && (x == init[i].source || x == init[i].target.path) {
        var i :| 0 <= i < |init| && init[i].target.FileNode? && (x == init[i].source || x == init[i].target.path);
        assert edges[i] == init[i];
      }
    }
  }

  /** Connected nodes are nodes of the graph. */
  lemma ConnectedWithin(edges: seq<Edge>, nodes: set<Path>, urls: set<string>)
    requires EdgesWithin(edges, nodes, urls)
    ensures Connected(edges) <= nodes
  {
    forall x | x in Connected(edges)
      ensures x in nodes
    {
      ConnectedIff(edges, x);
      var i :| 0 <= i < |edges| && edges[i].target.FileNode? && (x == edges[i].source || x == edges[i].target.path);
      assert EdgeWithin(edges[i], nodes, urls);
    }
  }

  /** Both ends of every internal edge are connected, so hiding isolated nodes
      keeps every internal edge's target. */
  lemma TargetsConnected(edges: seq<Edge>)
    ensures forall i :: 0 <= i < |edges| && edges[i].target.FileNode? ==>
      edges[i].source in Connected(edges) && edges[i].target.path in Connected(edges)
  {
    forall i | 0 <= i < |edges| && edges[i].target.FileNode?
      ensures edges[i].source in Connected(edges) && edges[i].target.path in Connected(edges)
    {
      ConnectedIff(edges, edges[i].source);
      ConnectedIff(edges, edges[i].target.path);
    }
  }

  // ---------------------------------------------------------------------------
  // Names and labels

  /** `_get_relative_path`: the path relative to `baseDir`, or the full path
      when it lies outside. */
  function RelativePath(baseDir: Path, p: Path): string {
    match RelativeTo(p, baseDir)
    case Some(rel) => RelStr(rel)
    case None => Str(p)
  }

  /** A path under `baseDir` prints relative to it: `baseDir`'s string, `/`, and
      the relative string give back the full string. */
  lemma RelativePathUnder(baseDir: Path, p: Path)
    requires IsPrefix(baseDir.parts, p.parts) && |p.parts| > |baseDir.parts| && |baseDir.parts| > 0
    ensures Str(baseDir) + "/" + RelativePath(baseDir, p) == Str(p)
  {
    var rel := p.parts[|baseDir.parts|..];
    assert p.parts == baseDir.parts + rel;
    JoinConcat(baseDir.parts, rel, "/");
  }

  /** The characters `[a-zA-Z0-9_]` a node id keeps. */
  predicate IsIdChar(c: char) {
    'a' <= c <= 'z' || 'A' <= c <= 'Z' || '0' <= c <= '9' || c == '_'
  }

  /** `re.sub(r'[^a-zA-Z0-9_]', '_', s)`. */
  function Sanitize(s: string): (r: string)
    ensures |r| == |s|
    ensures forall i :: 0 <= i < |r| ==> IsIdChar(r[i])
    ensures forall i :: 0 <= i < |r| ==> (r[i] == s[i] <==> IsIdChar(s[i]))
  {
    seq(|s|, i requires 0 <= i < |s| => if IsIdChar(s[i]) then s[i] else '_')
  }

  /** `re.sub(r'_+', '_', s)`: every run of underscores becomes one. */
  function CollapseUnderscores(s: string): (r: string)
    ensures |r| <= |s|
    ensures forall i :: 0 <= i < |r| ==> r[i] == '_' || r[i] in s
    decreases |s|
  {
    if s == [] then []
    else if s[0] == '_' then
      var rest := LStripChar(s, '_');
      assert |rest| < |s| by {
        assert rest == s[|s| - |rest|..];
      }
      "_" + CollapseUnderscores(rest)
    else [s[0]] + CollapseUnderscores(s[1..])
  }

  /** No two underscores in a row. */
  predicate NoDoubleUnderscore(s: string) {
    forall i :: 0 <= i < |s| - 1 ==> !(s[i] == '_' && s[i + 1] == '_')
  }

  /** `s` without its underscores. */
  function DropUnderscores(s: string): string {
    if s == [] then [] else (if s[0] == '_' then [] else [s[0]]) + DropUnderscores(s[1..])
  }

  /** Collapsing leaves no double underscore, keeps every other character in
      place, and changes nothing in a string that has no double underscore. */
  lemma CollapseUnderscoresSpec(s: string)
    ensures NoDoubleUnderscore(CollapseUnderscores(s))
    ensures DropUnderscores(CollapseUnderscores(s)) == DropUnderscores(s)
    ensures NoDoubleUnderscore(s) ==> CollapseUnderscores(s) == s
  {
    CollapseNoDouble(s);
    CollapseKeeps(s);
    if NoDoubleUnderscore(s) {
      CollapseFixed(s);
    }
  }

  /** A run of two underscores collapses as one does, wherever it occurs; with
      the fixed point of `CollapseUnderscoresSpec` this pins the result down
      for every text: `a__b_c` gives `a_b_c`. */
  lemma {:induction false} CollapseMerge(a: string, b: string)
    ensures CollapseUnderscores(a + "__" + b) == CollapseUnderscores(a + "_" + b)
    decreases |a|
  {
    if a != [] && a[0] != '_' {
      CollapseMerge(a[1..], b);
      MergeAfterOther(a, b);
    } else if a == [] {
      MergeAfterRun(a, b);
    } else {
      var ra := LStripChar(a, '_');
      LStripShorter(a);
      if ra != [] {
        CollapseMerge(ra, b);
      }
      MergeAfterRun(a, b);
    }
  }

  /** Stripping a leading underscore run shortens the text. */
  lemma LStripShorter(a: string)
    requires a != [] && a[0] == '_'
    ensures |LStripChar(a, '_')| < |a|
  {
    assert LStripChar(a, '_') == LStripChar(a[1..], '_');
  }

  /** The step of `CollapseMerge` past a first character that is kept. */
  lemma MergeAfterOther(a: string, b: string)
    requires a != [] && a[0] != '_'
    requires CollapseUnderscores(a[1..] + "__" + b) == CollapseUnderscores(a[1..] + "_" + b)
    ensures CollapseUnderscores(a + "__" + b) == CollapseUnderscores(a + "_" + b)
  {
    var s1 := a + "__" + b;
    var s2 := a + "_" + b;
    TailOfJoin(a, "__", b);
    TailOfJoin(a, "_", b);
    CollapseOther(s1);
    CollapseOther(s2);
  }

  /** Dropping the first character of `a + u + b` drops it from `a`. */
  lemma TailOfJoin(a: string, u: string, b: string)
    requires a != []
    ensures (a + u + b)[1..] == a[1..] + u + b
  {
  }

  /** The step of `CollapseMerge` past a leading run of underscores (or none at all). */
  lemma MergeAfterRun(a: string, b: string)
    requires a == [] || a[0] == '_'
    requires var ra := LStripChar(a, '_');
      ra != [] ==> CollapseUnderscores(ra + "__" + b) == CollapseUnderscores(ra + "_" + b)
    ensures CollapseUnderscores(a + "__" + b) == CollapseUnderscores(a + "_" + b)
  {
    var s1 := a + "__" + b;
    var s2 := a + "_" + b;
    LStripBeforeRun(a, "__", b);
    LStripBeforeRun(a, "_", b);
    assert s1[0] == '_' && s2[0] == '_';
    CollapseRun(s1);
    CollapseRun(s2);
  }

  /** `lstrip('_')` across a run `u` of underscores between `a` and `b`. */
  lemma LStripBeforeRun(a: string, u: string, b: string)
    requires u != [] && forall i :: 0 <= i < |u| ==> u[i] == '_'
    ensures var ra := LStripChar(a, '_');
      LStripChar(a + u + b, '_') == if ra == [] then LStripChar(b, '_') else ra + u + b
  {
    ConcatAssoc(a, u, b);
    LStripAppend(a, u + b, '_');
    LStripAppend(u, b, '_');
    ConcatAssoc(LStripChar(a, '_'), u, b);
  }

  /** A run of underscores at the start collapses to one. */
  lemma CollapseRun(s: string)
    requires s != [] && s[0] == '_'
    ensures CollapseUnderscores(s) == "_" + CollapseUnderscores(LStripChar(s, '_'))
  {
  }

  /** Any other first character is kept. */
  lemma CollapseOther(s: string)
    requires s != [] && s[0] != '_'
    ensures CollapseUnderscores(s) == [s[0]] + CollapseUnderscores(s[1..])
  {
  }

  /** No double underscore in `[c] + t` means none in `t` and none across the join. */
  lemma NoDoubleCons(c: char, t: string)
    ensures NoDoubleUnderscore([c] + t) <==> NoDoubleUnderscore(t) && !(c == '_' && t != [] && t[0] == '_')
  {
    var r := [c] + t;
    if NoDoubleUnderscore(t) && !(c == '_' && t != [] && t[0] == '_') {
      forall i | 0 <= i < |r| - 1
        ensures !(r[i] == '_' && r[i + 1] == '_')
      {
        if i > 0 {
          assert r[i] == t[i - 1] && r[i + 1] == t[i];
        }
      }
    }
    if NoDoubleUnderscore(r) {
      if t != [] {
        assert r[0] == c && r[1] == t[0];
      }
      forall i | 0 <= i < |t| - 1
        ensures !(t[i] == '_' && t[i + 1] == '_')
      {
        assert r[i + 1] == t[i] && r[i + 2] == t[i + 1];
      }
    }
  }

  lemma {:induction false} CollapseNoDouble(s: string)
    ensures NoDoubleUnderscore(CollapseUnderscores(s))
    ensures (CollapseUnderscores(s) == []) == (s == [])
    ensures s != [] ==> (CollapseUnderscores(s)[0] == '_') == (s[0] == '_')
    decreases |s|
  {
    if s != [] {
      if s[0] == '_' {
        var rest := LStripChar(s, '_');
        CollapseNoDouble(rest);
        NoDoubleCons('_', CollapseUnderscores(rest));
      } else {
        CollapseNoDouble(s[1..]);
        NoDoubleCons(s[0], CollapseUnderscores(s[1..]));
      }
    }
  }

  lemma {:induction false} CollapseKeeps(s: string)
    ensures DropUnderscores(CollapseUnderscores(s)) == DropUnderscores(s)
    decreases |s|
  {
    if s != [] {
      if s[0] == '_' {
        var rest := LStripChar(s, '_');
        CollapseKeeps(rest);
        DropLeadingUnderscores(s, |s| - |rest|);
        assert s[|s| - |rest|..] == rest;
        var t := CollapseUnderscores(rest);
        assert ("_" + t)[1..] == t;
      } else {
        CollapseKeeps(s[1..]);
        var t := CollapseUnderscores(s[1..]);
        assert ([s[0]] + t)[1..] == t;
      }
    }
  }

  lemma {:induction false} CollapseFixed(s: string)
    requires NoDoubleUnderscore(s)
    ensures CollapseUnderscores(s) == s
    decreases |s|
  {
    if s != [] {
      assert s == [s[0]] + s[1..];
      NoDoubleCons(s[0], s[1..]);
      if s[0] == '_' {
        var rest := LStripChar(s, '_');
        assert |s| - |rest| == 1 by {
          assert |s| < 2 || s[1] != '_';
        }
        assert rest == s[1..];
        CollapseFixed(rest);
      } else {
        CollapseFixed(s[1..]);
      }
    }
  }

  /** Leading underscores contribute nothing to `DropUnderscores`. */
  lemma {:induction false} DropLeadingUnderscores(s: string, n: nat)
    requires n <= |s| && forall i :: 0 <= i < n ==> s[i] == '_'
    ensures DropUnderscores(s) == DropUnderscores(s[n..])
  {
    if n > 0 {
      DropLeadingUnderscores(s[1..], n - 1);
      assert s[1..][n - 1..] == s[n..];
    }
  }

  /** `_get_node_id`: `node_` and the sanitised relative path with runs of
      underscores collapsed. */
  function NodeId(baseDir: Path, p: Path): (r: string)
    ensures StartsWith(r, "node_")
    ensures forall i :: 5 <= i < |r| ==> IsIdChar(r[i])
  {
    "node_" + CollapseUnderscores(Sanitize(RelativePath(baseDir, p)))
  }

  /** The part of a node id after `node_` is made of `[a-zA-Z0-9_]` and has no
      two underscores in a row; every letter and digit of the relative path
      appears in it, in order. */
  lemma NodeIdShape(baseDir: Path, p: Path)
    ensures var tail := NodeId(baseDir, p)[5..];
      && (forall i :: 0 <= i < |tail| ==> IsIdChar(tail[i]))
      && NoDoubleUnderscore(tail)
      && DropUnderscores(tail) == DropUnderscores(Sanitize(RelativePath(baseDir, p)))
  {
    var s := Sanitize(RelativePath(baseDir, p));
    CollapseUnderscoresSpec(s);
    assert NodeId(baseDir, p)[5..] == CollapseUnderscores(s);
  }

  /** Node ids are not unique: `a-b.md` and `a_b.md` under the same directory
      get the same id. */
  lemma NodeIdCollision(baseDir: Path)
    ensures NodeId(baseDir, Child(baseDir, "a-b.md")) == NodeId(baseDir, Child(baseDir, "a_b.md"))
  {
    assert Child(baseDir, "a-b.md").parts[|baseDir.parts|..] == ["a-b.md"];
    assert Child(baseDir, "a_b.md").parts[|baseDir.parts|..] == ["a_b.md"];
    assert Sanitize("a-b.md") == "a_b_md";
    assert Sanitize("a_b.md") == "a_b_md";
  }

  /** What one character becomes in `_escape_label`. */
  function EscapeChar(c: char): string {
    if c == '\\' then "\\\\" else if c == '"' then "\\\"" else if c == '\n' then "\\n" else [c]
  }

  /** Character-by-character escaping. */
  function EscapeChars(s: string): string {
    if s == [] then [] else EscapeChar(s[0]) + EscapeChars(s[1..])
  }

  /** `_escape_label`: backslashes doubled first, then `"` and newline escaped. */
  function EscapeLabel(s: string): string {
    ReplaceChar(ReplaceChar(ReplaceChar(s, '\\', "\\\\"), '"', "\\\""), '\n', "\\n")
  }

  /** `ReplaceChar` works piecewise. */
  lemma {:induction false} ReplaceCharAppend(a: string, b: string, c: char, rep: string)
    ensures ReplaceChar(a + b, c, rep) == ReplaceChar(a, c, rep) + ReplaceChar(b, c, rep)
  {
    if a != [] {
      var head := if a[0] == c then rep else [a[0]];
      ReplaceCharAppend(a[1..], b, c, rep);
      assert (a + b)[1..] == a[1..] + b && (a + b)[0] == a[0];
      assert ReplaceChar(a + b, c, rep) == head + ReplaceChar(a[1..] + b, c, rep);
      assert ReplaceChar(a, c, rep) == head + ReplaceChar(a[1..], c, rep);
      ConcatAssoc(head, ReplaceChar(a[1..], c, rep), ReplaceChar(b, c, rep));
    } else {
      assert a + b == b;
    }
  }

  /** The three passes of `_escape_label` on a single character. */
  lemma EscapeOne(c: char)
    ensures EscapeLabel([c]) == EscapeChar(c)
  {
    var r1 := ReplaceChar([c], '\\', "\\\\");
    var r2 := ReplaceChar(r1, '"', "\\\"");
    assert [c][1..] == [];
    if c == '\\' {
      assert r1 == "\\\\";
      ReplaceCharAbsent(r1, '"', "\\\"");
      ReplaceCharAbsent(r2, '\n', "\\n");
    } else {
      assert r1 == [c];
      if c == '"' {
        assert r2 == "\\\"";
        ReplaceCharAbsent(r2, '\n', "\\n");
      } else {
        assert r2 == [c];
      }
    }
  }

  /** Because backslashes are doubled before the other two replacements, the
      three passes escape each character on its own. */
  lemma {:induction false} EscapeLabelPerChar(s: string)
    ensures EscapeLabel(s) == EscapeChars(s)
  {
    if s != [] {
      var c := s[0];
      var t := s[1..];
      EscapeLabelPerChar(t);
      assert s == [c] + t;
      EscapeOne(c);
      var r1 := ReplaceChar([c], '\\', "\\\\");
      var t1 := ReplaceChar(t, '\\', "\\\\");
      ReplaceCharAppend([c], t, '\\', "\\\\");
      var r2 := ReplaceChar(r1, '"', "\\\"");
      var t2 := ReplaceChar(t1, '"', "\\\"");
      ReplaceCharAppend(r1, t1, '"', "\\\"");
      ReplaceCharAppend(r2, t2, '\n', "\\n");
    }
  }

  /** Reads back an escaped label: `\` followed by `n` is a newline, followed by
      any other character is that character. */
  function Unescape(s: string): string
    decreases |s|
  {
    if s == [] then []
    else if s[0] == '\\' && |s| >= 2 then (if s[1] == 'n' then "\n" else [s[1]]) + Unescape(s[2..])
    else [s[0]] + Unescape(s[1..])
  }

  /** An escaped label: plain characters other than `\`, `"` and newline, and
      the escapes `\\`, `\"` and `\n`. */
  predicate WellEscaped(s: string)
    decreases |s|
  {
    if s == [] then true
    else if s[0] == '\\' then |s| >= 2 && s[1] in "\\\"n" && WellEscaped(s[2..])
    else s[0] != '"' && s[0] != '\n' && WellEscaped(s[1..])
  }

  /** Escaping produces a well-escaped string that unescapes to the input. */
  lemma {:induction false} EscapeCharsSpec(s: string)
    ensures WellEscaped(EscapeChars(s))
    ensures Unescape(EscapeChars(s)) == s
  {
    if s != [] {
      EscapeCharsSpec(s[1..]);
      EscapeCharStep(s[0], EscapeChars(s[1..]));
      assert s == [s[0]] + s[1..];
    }
  }

  /** One escaped character in front of a well-escaped string keeps it well
      escaped and unescapes to that character. */
  lemma EscapeCharStep(c: char, rest: string)
    requires WellEscaped(rest)
    ensures WellEscaped(EscapeChar(c) + rest)
    ensures Unescape(EscapeChar(c) + rest) == [c] + Unescape(rest)
  {
    var e := EscapeChar(c) + rest;
    if |EscapeChar(c)| == 2 {
      assert e[2..] == rest;
    } else {
      assert e[1..] == rest;
    }
  }

  /** A well-escaped string holds no raw newline, and every `"` in it is the
      second character of an escape. */
  lemma {:induction false} WellEscapedShape(s: string)
    requires WellEscaped(s)
    ensures '\n' !in s
    ensures forall i :: 0 <= i < |s| && s[i] == '"' ==> i > 0 && s[i - 1] == '\\'
    decreases |s|
  {
    if s != [] {
      var k := if s[0] == '\\' then 2 else 1;
      WellEscapedShape(s[k..]);
      assert s == s[..k] + s[k..];
      forall i | 0 <= i < |s| && s[i] == '"'
        ensures i > 0 && s[i - 1] == '\\'
      {
        if i >= k {
          assert s[i] == s[k..][i - k];
          if i - k > 0 {
            assert s[i - 1] == s[k..][i - k - 1];
          }
        }
      }
    }
  }

  /** `_escape_label` output is safe inside a quoted DOT label, and reading the
      escapes back gives the label. */
  lemma EscapeLabelSpec(s: string)
    ensures WellEscaped(EscapeLabel(s)) && '\n' !in EscapeLabel(s)
    ensures Unescape(EscapeLabel(s)) == s
  {
    EscapeLabelPerChar(s);
    EscapeCharsSpec(s);
    WellEscapedShape(EscapeLabel(s));
  }

  /** The label shown for a URL: the URL itself up to 50 characters, otherwise
      its first 47 characters and `...`. */
  function DisplayUrl(url: string): (r: string)
    ensures |r| <= 50
    ensures |url| <= 50 ==> r == url
    ensures |url| > 50 ==> |r| == 50 && StartsWith(url, r[..47]) && EndsWith(r, "...")
  {
    if |url| <= 50 then url else url[..47] + "..."
  }

  // ---------------------------------------------------------------------------
  // DOT text

  const DotHeader: seq<string> := ["digraph markdown_links {", "    rankdir=LR;", "    node [shape=box, style=rounded];", ""]

  /** The line of one file node; existing files are light blue, missing ones light coral. */
  function NodeLine(baseDir: Path, existing: set<Path>, node: Path): string {
    "    " + NodeId(baseDir, node) + " [label=\"" + EscapeLabel(RelativePath(baseDir, node))
    + "\", fillcolor=" + (if node in existing then "lightblue" else "lightcoral") + ", style=\"rounded,filled\"];"
  }

  /** The line of one external node. */
  function UrlLine(extId: string -> string, url: string): string {
    "    " + extId(url) + " [label=\"" + EscapeLabel(DisplayUrl(url)) + "\", fillcolor=lightyellow, style=\"rounded,filled\", shape=ellipse];"
  }

  function EdgeLine(sourceId: string, targetId: string, labelText: string): string {
    "    " + sourceId + " -> " + targetId + " [label=\"" + EscapeLabel(labelText) + "\"];"
  }

  function NodeLines(baseDir: Path, existing: set<Path>, order: seq<Path>): (r: seq<string>)
    ensures |r| == |order|
  {
    if order == [] then []
    else NodeLines(baseDir, existing, order[..|order| - 1]) + [NodeLine(baseDir, existing, order[|order| - 1])]
  }

  function UrlLines(extId: string -> string, order: seq<string>): (r: seq<string>)
    ensures |r| == |order|
  {
    if order == [] then []
    else UrlLines(extId, order[..|order| - 1]) + [UrlLine(extId, order[|order| - 1])]
  }

  lemma UrlLinesStep(extId: string -> string, order: seq<string>, i: nat)
    requires i < |order|
    ensures UrlLines(extId, order[..i + 1]) == UrlLines(extId, order[..i]) + [UrlLine(extId, order[i])]
  {
    var done := order[..i + 1];
    assert done[..i] == order[..i] && done[i] == order[i];
  }

  /** Whether `generate_dot` prints an edge: an external edge only when external
      links are included, an internal edge unless isolated nodes are hidden and
      its target is not among the included nodes. */
  predicate EdgeShown(includeExternal: bool, hideIsolated: bool, included: set<Path>, e: Edge) {
    match e.target
    case UrlNode(_) => includeExternal
    case FileNode(p) => !hideIsolated || p in included
  }

  /** The id an edge points at: the URL's id or the target file's node id. */
  function TargetId(baseDir: Path, extId: string -> string, t: EdgeTarget): string {
    match t
    case UrlNode(u) => extId(u)
    case FileNode(p) => NodeId(baseDir, p)
  }

  /** The line of one edge. */
  function EdgeText(baseDir: Path, extId: string -> string, e: Edge): string {
    EdgeLine(NodeId(baseDir, e.source), TargetId(baseDir, extId, e.target), e.labelText)
  }

  /** The line printed for one edge, if it is shown. */
  function EdgeLineOf(baseDir: Path, extId: string -> string, includeExternal: bool, hideIsolated: bool,
                      included: set<Path>, e: Edge): seq<string> {
    if EdgeShown(includeExternal, hideIsolated, included, e) then [EdgeText(baseDir, extId, e)] else []
  }

  function EdgeLines(baseDir: Path, extId: string -> string, includeExternal: bool, hideIsolated: bool,
                     included: set<Path>, edges: seq<Edge>): seq<string> {
    if edges == [] then []
    else
      EdgeLines(baseDir, extId, includeExternal, hideIsolated, included, edges[..|edges| - 1])
      + EdgeLineOf(baseDir, extId, includeExternal, hideIsolated, included, edges[|edges| - 1])
  }

  lemma EdgeLinesStep(baseDir: Path, extId: string -> string, includeExternal: bool, hideIsolated: bool,
                      included: set<Path>, edges: seq<Edge>, i: nat)
    requires i < |edges|
    ensures EdgeLines(baseDir, extId, includeExternal, hideIsolated, included, edges[..i + 1])
         == EdgeLines(baseDir, extId, includeExternal, hideIsolated, included, edges[..i])
            + EdgeLineOf(baseDir, extId, includeExternal, hideIsolated, included, edges[i])
  {
    var done := edges[..i + 1];
    assert done[..i] == edges[..i] && done[i] == edges[i];
  }

  /** `sorted` on URLs compares the strings; as lists of one string they sort alike. */
  function UrlKey(u: string): seq<string> {
    [u]
  }

  lemma KeysInjective()
    ensures Injective(PathKey) && Injective(UrlKey)
  {
    forall x: Path, y: Path | PathKey(x) == PathKey(y)
      ensures x == y
    {
    }
    forall x: string, y: string | UrlKey(x) == UrlKey(y)
      ensures x == y
    {
      assert UrlKey(x)[0] == x;
    }
  }

  /** External nodes come in string order. */
  lemma UrlOrder(order: seq<string>)
    requires StrictlySortedBy(order, UrlKey)
    ensures forall i, j :: 0 <= i < j < |order| ==> StrLt(order[i], order[j])
  {
    forall i, j | 0 <= i < j < |order|
      ensures StrLt(order[i], order[j])
    {
      SingletonLt(order[i], order[j]);
    }
  }

  /** `sorted(paths)` for a set of paths. */
  ghost function SortedNodes(s: set<Path>): (r: seq<Path>)
    ensures StrictlySortedBy(r, PathKey) && forall x :: x in r <==> x in s
  {
    KeysInjective();
    Listing(s, PathKey)
  }

  /** `sorted(urls)` for a set of URLs. */
  ghost function SortedUrls(s: set<string>): (r: seq<string>)
    ensures StrictlySortedBy(r, UrlKey) && forall x :: x in r <==> x in s
  {
    KeysInjective();
    Listing(s, UrlKey)
  }

  /** The nodes `generate_dot` prints: all nodes, or only the connected ones. */
  function IncludedNodes(hideIsolated: bool, nodes: set<Path>, edges: seq<Edge>): set<Path> {
    if hideIsolated then Connected(edges) else nodes
  }

  /** The external-node lines of `generate_dot`: none unless external links are included. */
  ghost function ExternalLines(extId: string -> string, includeExternal: bool, urls: set<string>): seq<string> {
    if includeExternal then UrlLines(extId, SortedUrls(urls)) else []
  }

  /** The lines of `generate_dot`. */
  ghost function DotLines(baseDir: Path, extId: string -> string, existing: set<Path>, includeExternal: bool,
                          hideIsolated: bool, nodes: set<Path>, urls: set<string>, edges: seq<Edge>): seq<string>
  {
    var included := IncludedNodes(hideIsolated, nodes, edges);
    DotHeader
    + NodeLines(baseDir, existing, SortedNodes(included))
    + ExternalLines(extId, includeExternal, urls)
    + [""]
    + EdgeLines(baseDir, extId, includeExternal, hideIsolated, included, edges)
    + ["}"]
  }

  /** `generate_dot`: the lines joined with newlines. */
  ghost function Dot(baseDir: Path, extId: string -> string, existing: set<Path>, includeExternal: bool,
                     hideIsolated: bool, nodes: set<Path>, urls: set<string>, edges: seq<Edge>): string
  {
    Join(DotLines(baseDir, extId, existing, includeExternal, hideIsolated, nodes, urls, edges), "\n")
  }

  /** The DOT text opens the digraph on its first line and closes it on its last. */
  lemma DotFrame(baseDir: Path, extId: string -> string, existing: set<Path>, includeExternal: bool,
                 hideIsolated: bool, nodes: set<Path>, urls: set<string>, edges: seq<Edge>)
    ensures var dot := Dot(baseDir, extId, existing, includeExternal, hideIsolated, nodes, urls, edges);
      StartsWith(dot, "digraph markdown_links {") && EndsWith(dot, "}")
  {
    var lines := DotLines(baseDir, extId, existing, includeExternal, hideIsolated, nodes, urls, edges);
    assert lines[0] == "digraph markdown_links {" && lines[|lines| - 1] == "}";
    JoinStartsWithFirst(lines, "\n");
    JoinEndsWithLast(lines, "\n");
  }

  /** After the four header lines come the included file nodes, one line each,
      in strictly increasing path order. */
  lemma DotNodeOrder(baseDir: Path, extId: string -> string, existing: set<Path>, includeExternal: bool,
                     hideIsolated: bool, nodes: set<Path>, urls: set<string>, edges: seq<Edge>)
    ensures var lines := DotLines(baseDir, extId, existing, includeExternal, hideIsolated, nodes, urls, edges);
      var order := SortedNodes(IncludedNodes(hideIsolated, nodes, edges));
      && |lines| >= 4 + |order| + 2
      && lines[4..4 + |order|] == NodeLines(baseDir, existing, order)
  {
    var lines := DotLines(baseDir, extId, existing, includeExternal, hideIsolated, nodes, urls, edges);
    var order := SortedNodes(IncludedNodes(hideIsolated, nodes, edges));
    var included := IncludedNodes(hideIsolated, nodes, edges);
    SecondPiece(DotHeader, NodeLines(baseDir, existing, order), ExternalLines(extId, includeExternal, urls), [""],
                EdgeLines(baseDir, extId, includeExternal, hideIsolated, included, edges), ["}"]);
  }

  /** The second of six concatenated pieces sits right after the first. */
  lemma SecondPiece<T>(h: seq<T>, m: seq<T>, x: seq<T>, y: seq<T>, z: seq<T>, w: seq<T>)
    ensures |h + m + x + y + z + w| == |h| + |m| + |x| + |y| + |z| + |w|
    ensures (h + m + x + y + z + w)[|h|..|h| + |m|] == m
  {
    var all := h + m + x + y + z + w;
    assert all == (h + m) + (x + y + z + w);
    assert (h + m)[|h|..] == m;
  }

  lemma {:induction false} NodeLinesAt(baseDir: Path, existing: set<Path>, order: seq<Path>, i: nat)
    requires i < |order|
    ensures NodeLines(baseDir, existing, order)[i] == NodeLine(baseDir, existing, order[i])
  {
    if i < |order| - 1 {
      NodeLinesAt(baseDir, existing, order[..|order| - 1], i);
    }
  }

  /** A list `g` builds by appending `f` of one element at a time holds `f`
      of each element, in order, up to the prefix of length `m`. */
  lemma {:induction false} PrefixPointwise<A, B>(xs: seq<A>, g: seq<A> -> seq<B>, f: A -> B, m: nat)
    requires m <= |xs| && g([]) == []
    requires forall k :: 0 <= k < |xs| ==> g(xs[..k + 1]) == g(xs[..k]) + [f(xs[k])]
    ensures |g(xs[..m])| == m
    ensures forall i :: 0 <= i < m ==> g(xs[..m])[i] == f(xs[i])
  {
    if m == 0 {
      assert xs[..0] == [];
    } else {
      PrefixPointwise(xs, g, f, m - 1);
      assert g(xs[..m]) == g(xs[..m - 1]) + [f(xs[m - 1])];
    }
  }

  /** When every edge is shown, `generate_dot` prints one line per edge, in
      insertion order. */
  lemma EdgeLinesAll(baseDir: Path, extId: string -> string, included: set<Path>, edges: seq<Edge>)
    ensures |EdgeLines(baseDir, extId, true, false, included, edges)| == |edges|
    ensures forall i :: 0 <= i < |edges| ==>
      EdgeLines(baseDir, extId, true, false, included, edges)[i] == EdgeText(baseDir, extId, edges[i])
  {
    var g := (s: seq<Edge>) => EdgeLines(baseDir, extId, true, false, included, s);
    var f := (e: Edge) => EdgeText(baseDir, extId, e);
    forall k | 0 <= k < |edges|
      ensures g(edges[..k + 1]) == g(edges[..k]) + [f(edges[k])]
    {
      EdgeLinesStep(baseDir, extId, true, false, included, edges, k);
    }
    PrefixPointwise(edges, g, f, |edges|);
    assert edges[..|edges|] == edges;
  }

  /** Hiding isolated nodes never drops an internal edge: every internal edge's
      target is connected, so the edge lines are those printed without hiding. */
  lemma HideIsolatedKeepsEdges(baseDir: Path, extId: string -> string, includeExternal: bool, edges: seq<Edge>)
    ensures EdgeLines(baseDir, extId, includeExternal, true, Connected(edges), edges)
         == EdgeLines(baseDir, extId, includeExternal, false, Connected(edges), edges)
  {
    TargetsConnected(edges);
    EdgeLinesShown(baseDir, extId, includeExternal, Connected(edges), edges);
  }

  lemma {:induction false} EdgeLinesShown(baseDir: Path, extId: string -> string, includeExternal: bool,
                                          included: set<Path>, edges: seq<Edge>)
    requires forall i :: 0 <= i < |edges| && edges[i].target.FileNode? ==> edges[i].target.path in included
    ensures EdgeLines(baseDir, extId, includeExternal, true, included, edges)
         == EdgeLines(baseDir, extId, includeExternal, false, included, edges)
  {
    if edges != [] {
      var init := edges[..|edges| - 1];
      forall i | 0 <= i < |init| && init[i].target.FileNode?
        ensures init[i].target.path in included
      {
        assert init[i] == edges[i];
      }
      EdgeLinesShown(baseDir, extId, includeExternal, included, init);
    }
  }

  /** The edge label ends with the line number, which can be read back. */
  function LineOfLabel(text: string): Option<nat> {
    if text == [] || text[|text| - 1] != ')' then None
    else
      var body := text[..|text| - 1];
      var n := TrailingDigits(body);
      if n == 0 then None else Some(ParseNat(body[|body| - n..]))
  }

  /** Length of the run of digits that ends `s`. */
  function TrailingDigits(s: string): (n: nat)
    ensures n <= |s| && forall i :: |s| - n <= i < |s| ==> IsDigit(s[i])
  {
    if s == [] || !IsDigit(s[|s| - 1]) then 0 else 1 + TrailingDigits(s[..|s| - 1])
  }

  lemma {:induction false} TrailingDigitsAfter(prefix: string, digits: string)
    requires prefix != [] && !IsDigit(prefix[|prefix| - 1])
    requires forall i :: 0 <= i < |digits| ==> IsDigit(digits[i])
    ensures TrailingDigits(prefix + digits) == |digits|
  {
    if digits != [] {
      var init := digits[..|digits| - 1];
      assert (prefix + digits)[..|prefix + digits| - 1] == prefix + init;
      TrailingDigitsAfter(prefix, init);
    } else {
      assert prefix + digits == prefix;
    }
  }

  /** The line number in an edge label reads back as the link's line number. */
  lemma EdgeLabelLine(l: Link)
    ensures LineOfLabel(EdgeLabel(l)) == Some(l.lineNumber)
  {
    var digits := NatToString(l.lineNumber);
    var prefix := l.linkText + " (L";
    var text := EdgeLabel(l);
    assert text == prefix + digits + ")";
    var body := text[..|text| - 1];
    assert body == prefix + digits;
    TrailingDigitsAfter(prefix, digits);
    assert body[|body| - |digits|..] == digits;
    ParseNatToString(l.lineNumber);
  }

  // ---------------------------------------------------------------------------
  // Loops of `generate_dot` and `_get_connected_nodes`

  /** The node loop of `generate_dot`. */
  method PrintNodes(baseDir: Path, existing: set<Path>, order: seq<Path>) returns (lines: seq<string>)
    ensures lines == NodeLines(baseDir, existing, order)
  {
    lines := [];
    for i := 0 to |order|
      invariant lines == NodeLines(baseDir, existing, order[..i])
    {
      var relPath := RelativePath(baseDir, order[i]);
      var nodeId := NodeId(baseDir, order[i]);
      var color := if order[i] in existing then "lightblue" else "lightcoral";
      lines := lines + ["    " + nodeId + " [label=\"" + EscapeLabel(relPath) + "\", fillcolor=" + color + ", style=\"rounded,filled\"];"];
      assert order[..i + 1][..i] == order[..i];
    }
    assert order[..|order|] == order;
  }

  /** The external-node loop of `generate_dot`. */
  method PrintUrls(extId: string -> string, order: seq<string>) returns (lines: seq<string>)
    ensures lines == UrlLines(extId, order)
  {
    lines := [];
    for i := 0 to |order|
      invariant lines == UrlLines(extId, order[..i])
    {
      var url := order[i];
      var displayUrl := DisplayUrl(url);
      var line := "    " + extId(url) + " [label=\"" + EscapeLabel(displayUrl) + "\", fillcolor=lightyellow, style=\"rounded,filled\", shape=ellipse];";
      assert line == UrlLine(extId, url);
      UrlLinesStep(extId, order, i);
      lines := lines + [line];
    }
    assert order[..|order|] == order;
  }

  /** The edge loop of `generate_dot`. */
  method PrintEdges(baseDir: Path, extId: string -> string, includeExternal: bool, hideIsolated: bool,
                    included: set<Path>, edges: seq<Edge>) returns (lines: seq<string>)
    ensures lines == EdgeLines(baseDir, extId, includeExternal, hideIsolated, included, edges)
  {
    lines := [];
    for i := 0 to |edges|
      invariant lines == EdgeLines(baseDir, extId, includeExternal, hideIsolated, included, edges[..i])
    {
      var edge := edges[i];
      EdgeLinesStep(baseDir, extId, includeExternal, hideIsolated, included, edges, i);
      var sourceId := NodeId(baseDir, edge.source);
      match edge.target {
        case UrlNode(u) =>
          if includeExternal {
            lines := lines + [EdgeLine(sourceId, extId(u), edge.labelText)];
          }
        case FileNode(p) =>
          if !hideIsolated || p in included {
            lines := lines + [EdgeLine(sourceId, NodeId(baseDir, p), edge.labelText)];
          }
      }
    }
    assert edges[..|edges|] == edges;
  }

  // ---------------------------------------------------------------------------
  // The builder

  class GraphBuilder {
    const baseDir: Path
    const includeExternal: bool
    const hideIsolated: bool
    var nodes: set<Path>
    var externalNodes: set<string>
    var edges: seq<Edge>

    /** Every edge's endpoints are recorded, and external nodes and edges exist
        only when external links are included. */
    ghost predicate Valid()
      reads this
    {
      GraphInvariant(includeExternal, nodes, externalNodes, edges)
    }

    constructor(baseDir: Path, includeExternal: bool, hideIsolated: bool)
      ensures Valid()
      ensures this.baseDir == baseDir && this.includeExternal == includeExternal && this.hideIsolated == hideIsolated
      ensures nodes == {} && externalNodes == {} && edges == []
    {
      this.baseDir := baseDir;
      this.includeExternal := includeExternal;
      this.hideIsolated := hideIsolated;
      nodes := {};
      externalNodes := {};
      edges := [];
    }

    /** `add_links(links)`. */
    method AddLinks(links: seq<Link>)
      requires Valid()
      modifies this`nodes, this`externalNodes, this`edges
      ensures Valid()
      ensures nodes == old(nodes) + NodesOf(baseDir, links)
      ensures externalNodes == old(externalNodes) + UrlsOf(includeExternal, links)
      ensures edges == old(edges) + EdgesOf(baseDir, includeExternal, links)
    {
      for i := 0 to |links|
        invariant nodes == old(nodes) + NodesOf(baseDir, links[..i])
        invariant externalNodes == old(externalNodes) + UrlsOf(includeExternal, links[..i])
        invariant edges == old(edges) + EdgesOf(baseDir, includeExternal, links[..i])
      {
        AddLinksStep(baseDir, includeExternal, links, i);
        AddLink(links[i]);
        UnionAssoc(old(nodes), NodesOf(baseDir, links[..i]), LinkNodes(baseDir, links[i]));
        UnionAssoc(old(externalNodes), UrlsOf(includeExternal, links[..i]), LinkUrls(includeExternal, links[i]));
        ConcatAssoc(old(edges), EdgesOf(baseDir, includeExternal, links[..i]), LinkEdges(baseDir, includeExternal, links[i]));
      }
      assert links[..|links|] == links;
      AddLinksKeepsInvariant(baseDir, includeExternal, old(nodes), old(externalNodes), old(edges), links);
    }

    /** The body of `add_links`' loop: one link's nodes and edge. */
    method AddLink(link: Link)
      modifies this`nodes, this`externalNodes, this`edges
      ensures nodes == old(nodes) + LinkNodes(baseDir, link)
      ensures externalNodes == old(externalNodes) + LinkUrls(includeExternal, link)
      ensures edges == old(edges) + LinkEdges(baseDir, includeExternal, link)
    {
      nodes := nodes + {link.sourceFile};
      if link.isExternal {
        if includeExternal {
          externalNodes := externalNodes + {link.target};
          edges := edges + [Edge(link.sourceFile, UrlNode(link.target), EdgeLabel(link))];
        }
      } else {
        var targetPath := ResolveInternalLink(link.sourceFile, link.target, baseDir);
        nodes := nodes + {targetPath};
        edges := edges + [Edge(link.sourceFile, FileNode(targetPath), EdgeLabel(link))];
      }
    }

    /** `_get_connected_nodes()`. */
    method GetConnectedNodes() returns (connected: set<Path>)
      ensures connected == Connected(edges)
    {
      connected := {};
      for i := 0 to |edges|
        invariant connected == Connected(edges[..i])
      {
        var edge := edges[i];
        if edge.target.FileNode? {
          connected := connected + {edge.source};
          connected := connected + {edge.target.path};
        }
        assert edges[..i + 1][..i] == edges[..i];
      }
      assert edges[..|edges|] == edges;
    }

    /** `generate_dot()`, with `existing` the files that exist and `extId` the
        id of an external node. */
    method GenerateDot(existing: set<Path>, extId: string -> string) returns (dot: string)
      ensures dot == Dot(baseDir, extId, existing, includeExternal, hideIsolated, nodes, externalNodes, edges)
    {
      KeysInjective();
      var included := nodes;
      if hideIsolated {
        included := GetConnectedNodes();
      }
      var order := SortedListing(included, PathKey);
      var nodeLines := PrintNodes(baseDir, existing, order);
      var urlLines := [];
      if includeExternal {
        var urls := SortedListing(externalNodes, UrlKey);
        urlLines := PrintUrls(extId, urls);
      }
      var edgeLines := PrintEdges(baseDir, extId, includeExternal, hideIsolated, included, edges);
      var lines := DotHeader + nodeLines + urlLines + [""] + edgeLines + ["}"];
      assert lines == DotLines(baseDir, extId, existing, includeExternal, hideIsolated, nodes, externalNodes, edges);
      dot := Join(lines, "\n");
    }
  }
}
