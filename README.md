# md-file-graph in Dafny

md-file-graph scans a tree of markdown documents and draws the links between
them as a Graphviz DOT graph. It also publishes the tree as a static site with
a sitemap and a navigation index. This project models the core of the tool
and proves properties of that model:

- **`MarkdownParser`** (`parser.dfy`). Covers the excluded directory names,
  `.gitignore` loading and the upward `.gitignore` walk of
  `_should_exclude_path`, the recursive markdown file scan, link extraction
  with the markdown link pattern, external-link classification and link
  resolution. The file system is an in-memory tree (`Entry`) that the parser
  holds. Reading a file translates its line endings as Python's text mode
  does (`ReadText` in `strings.dfy`). Paths are lists of components (`paths.dfy`), and their order is
  Python's order on `PurePosixPath` (`sorting.dfy`). The link pattern's
  `finditer` is in `linksyntax.dfy`. `fnmatch` for `*` and `?` patterns is in
  `glob.dfy`.
- **`GraphBuilder`** (`graph.dfy`). A class whose `nodes`, `externalNodes` and
  `edges` fields `AddLinks` updates in place. Also covers the connected
  nodes, node ids, label escaping and the DOT text.
- **`HTMLGenerator`**:
  - `site.dfy`: which documents are published, and how `.md` links are
    rewritten.
  - `metadata.dfy`: the title and description that `extract_metadata`
    finds.
  - `pages.dfy`: the bookkeeping of `generate_page` (a `SiteGenerator` class
    with `generatedPages` and `docTree` fields), the lines of `sitemap.xml`,
    and the sections of `docs.json`.
- Python `str` operations (`strings.dfy`) and the `Option` type
  (`wrappers.dfy`) support the rest.

Each method that performs a loop of the source states its result or its new
state through a specification function. Lemmas then prove what the source
promises about that function: round trips, iff characterisations, ordering,
counting and preserved invariants.

Where the repository's documentation and the code disagree, the model follows
the code:

- A root-relative link (`/x.md`) is resolved only against the base directory, with no fallback.
- `!` re-include patterns of `.gitignore` are not honoured.
- Bare URLs in the text are not links.
- DOT nodes are printed in sorted path order, not in first-seen order. Edges keep insertion order.
- `archive` is not among the default excluded directory names.

## Model

| member | source | states |
|---|---|---|
| Parser.ExcludeDirsFor | src/md_file_graph/parser.py:59-72 | a directory name is excluded exactly when it is a default third-party name (and defaults are enabled) or one of the additional names |
| Parser.MarkdownParser.constructor | src/md_file_graph/parser.py:59-74 | the parser starts with the given flags, the combined excluded names and an empty `.gitignore` cache |
| Parser.SplitLines | src/md_file_graph/parser.py:84 | the lines of a text contain no line-break character |
| Parser.SplitLinesIsSplit | src/md_file_graph/parser.py:84 | on text whose only line break is `\n`, the lines are exactly the pieces of `split('\n')` |
| Parser.GitignoreLinesJoin | src/md_file_graph/parser.py:83-84 | the lines of a `.gitignore` read in text mode, joined by `\n`, give back the text it reads as, so no character is lost or invented |
| Parser.KeepPatternsIff | src/md_file_graph/parser.py:84-88 | a string is a loaded pattern exactly when it is the stripped form of some line that is neither blank nor a `#` comment |
| Parser.KeepPatternsClean | src/md_file_graph/parser.py:84-88 | every loaded pattern is non-blank, not a comment and has no surrounding whitespace |
| Parser.PatternsOfLines | src/md_file_graph/parser.py:84-88 | the line loop of `_load_gitignore` yields exactly the kept patterns in order |
| Strings.ReadText | src/md_file_graph/parser.py:83 | text read in text mode holds no `\r` and is no longer than the stored text |
| Strings.ReadTextPlain | src/md_file_graph/parser.py:169 | a text without `\r` reads as itself |
| Strings.ReadTextConcat | src/md_file_graph/parser.py:169 | the text is translated piece by piece, wherever the cut does not split a `\r\n` pair |
| Strings.ReadTextChars | src/md_file_graph/parser.py:83 | reading introduces no character other than `\n` |
| Strings.ReadTextCrLf | src/md_file_graph/parser.py:169 | a `\r\n` pair reads as a single `\n` |
| Strings.CrLfEndsLine | src/md_file_graph/parser.py:169-170 | `x\r\ny` gives the two lines `x` and `y`, with no blank line between them, so line numbers are not doubled |
| Strings.LoneCarriageReturn | src/md_file_graph/parser.py:169-170 | a lone `\r` ends a line: `x\ry` gives the two lines `x` and `y` |
| Parser.MarkdownParser.LoadGitignore | src/md_file_graph/parser.py:76-92 | returns the patterns of the directory's `.gitignore`, and none when it is missing or is not a file |
| Parser.AnyExcludedName | src/md_file_graph/parser.py:102-104 | the component loop reports true exactly when some component below the base is an excluded name |
| Parser.MatchPatterns | src/md_file_graph/parser.py:118-126 | the pattern loop reports true exactly when some pattern excludes the path relative to the `.gitignore`'s directory |
| Parser.LiteralPatternExcludes | src/md_file_graph/parser.py:124-126 | a pattern without wildcards or trailing `/` excludes exactly the relative path it spells out, directly or after some `/` |
| Parser.WalkUpIff | src/md_file_graph/parser.py:109-132 | the `while current >= base_dir` walk with its break at the base finds a hit exactly when some directory between the base and the start holds one |
| Parser.PrefixNotAbove | src/md_file_graph/parser.py:110 | an ancestor never sorts after its descendant, so the `>=` test holds all the way up to the base |
| Parser.GitignoreWalkIff | src/md_file_graph/parser.py:107-132 | from the path (a directory) or its parent, the walk finds an excluding `.gitignore` exactly when one lies between the base and the start |
| Parser.MarkdownParser.GitignoreAtExcludes | src/md_file_graph/parser.py:111-126 | one step of the walk loads the directory's patterns into the cache if absent and reports whether they exclude the path |
| Parser.MarkdownParser.GitignoreWalk | src/md_file_graph/parser.py:107-132 | the loop computes the walk, and the cache keeps holding each directory's true patterns |
| Parser.MarkdownParser.ShouldExcludePath | src/md_file_graph/parser.py:94-138 | a path outside the base is never excluded; below it, a path is excluded exactly when a component is an excluded name or (when enabled) a `.gitignore` excludes it |
| Parser.ExcludedNameInherited | src/md_file_graph/parser.py:102-104 | everything below a directory with an excluded name is excluded as well |
| Parser.MarkdownParser.ScanItem | src/md_file_graph/parser.py:147-155 | one entry contributes nothing when excluded, its own scan when it is a directory, and itself when it is a markdown file |
| Parser.MarkdownParser.ScanDirectory | src/md_file_graph/parser.py:145-159 | the recursive scan yields the walk of the directory's entries in listing order |
| Parser.MarkdownParser.FindMarkdownFiles | src/md_file_graph/parser.py:140-162 | returns the sorted walk of the directory, and nothing when the directory is missing |
| Parser.MarkdownFiles | src/md_file_graph/parser.py:140-162 | the files found are sorted by path |
| Parser.WalkSound | src/md_file_graph/parser.py:145-159 | every path the scan yields has a markdown name, lies strictly below the scanned directory, and neither it nor any directory on the way down was excluded |
| Parser.WalkFindsFiles | src/md_file_graph/parser.py:147-153 | where names are distinct, every path the scan yields leads from the scanned directory to a file (`is_file()`) |
| Parser.WalkComplete | src/md_file_graph/parser.py:145-159 | the scan yields every file with a markdown name strictly below the directory that is reached without passing an excluded path |
| Parser.WalkDistinct | src/md_file_graph/parser.py:147-155 | where names are distinct, the scan yields no path twice |
| Parser.MarkdownFilesSound | src/md_file_graph/parser.py:140-162 | every found path has a `.md` suffix, lies strictly below the directory, neither it nor any directory above it (up to the directory) is excluded, and, where names are distinct, it is a file |
| Parser.MarkdownFilesComplete | src/md_file_graph/parser.py:140-162 | every file with a `.md` suffix strictly below the directory is found when neither it nor any directory above it (up to the directory) is excluded |
| Parser.MarkdownFilesStrictlySorted | src/md_file_graph/parser.py:140-162 | where names are distinct, the files found are in strictly increasing path order, each listed once |
| Parser.ExternalByPrefix | src/md_file_graph/parser.py:201-212 | external classification depends only on a prefix: extending an external target keeps it external |
| Parser.LinkOfShape | src/md_file_graph/parser.py:177-194 | a match is dropped exactly when its target is empty or an internal pure fragment; a kept internal target is the raw target up to its first `#`, and an external one is kept whole |
| Parser.LinksOfMatchesIff | src/md_file_graph/parser.py:174-194 | a link is produced from a line exactly when one of its matches gives it |
| Parser.LinesLinksIff | src/md_file_graph/parser.py:170-194 | a link is extracted from the first lines exactly when one of those lines gives it |
| Parser.LinesLinksOrdered | src/md_file_graph/parser.py:172-194 | links carry 1-based line numbers within the file and come in line order |
| Parser.LineLinkShape | src/md_file_graph/parser.py:172-194 | every link of a line comes from a `[text](target)` match on it, with non-empty text and target, its classification, and no `#` in an internal target |
| Parser.ExtractedLinkShape | src/md_file_graph/parser.py:164-199 | every link `extract_links` returns comes from an existing file, from a match on its stated line, and has the shape above |
| Parser.LinksOfLine | src/md_file_graph/parser.py:174-194 | the match loop of one line yields the kept links of all its matches in order |
| Parser.MarkdownParser.ExtractLinks | src/md_file_graph/parser.py:164-199 | the line loop returns the links of every `\n`-separated line of the file read as text, in order, and none for a missing file |
| Parser.RootRelativeResolution | src/md_file_graph/parser.py:217-218 | a target starting with `/` resolves to the base directory followed by exactly the target's components |
| Parser.SourceRelativeResolution | src/md_file_graph/parser.py:220-222 | another target resolves against the source's directory to a path without `..`, built only from their components, and plainly concatenated when neither holds `..` |
| Parser.SourceRelativeUp | src/md_file_graph/parser.py:220-222 | a `..` in the target cancels the component before it, whether that comes from the target or from the source's directory |
| Parser.ResolveIdempotent | src/md_file_graph/parser.py:221 | resolving an already-resolved source-relative path changes nothing |
| LinkSyntax.MatchAtSpells | src/md_file_graph/parser.py:174 | every match the scanner reports spells `[text](target)`, with `]` not in the text and `)` not in the target |
| LinkSyntax.SpellsMatchAt | src/md_file_graph/parser.py:174 | wherever the line spells the pattern, the scanner reports exactly that match |
| LinkSyntax.MatchesShape | src/md_file_graph/parser.py:174 | `finditer`'s matches each spell the pattern, and they come left to right without overlapping |
| LinkSyntax.MatchesLeftmost | src/md_file_graph/parser.py:174 | no match is skipped: every position where the pattern matches is covered by a reported match |
| Glob.LiteralMatch | src/md_file_graph/parser.py:121 | a pattern without wildcards matches exactly itself |
| Glob.StarPrefix | src/md_file_graph/parser.py:124-125 | `*` followed by a pattern matches exactly when some suffix matches the pattern |
| Glob.AnyDepthMatch | src/md_file_graph/parser.py:125 | `**/p` matches exactly when the part after some `/` matches `p` |
| Paths.RelativeTo | src/md_file_graph/parser.py:98 | `relative_to` succeeds exactly for paths under the base, and the base followed by the result is the path |
| Paths.NormalizeUp | src/md_file_graph/parser.py:221 | a `..` removes the component just before it |
| Paths.NormalizeCancel | src/md_file_graph/parser.py:221 | a component followed by `..` cancels out wherever the pair occurs |
| Paths.NormalizeIdempotent | src/md_file_graph/parser.py:221 | collapsing `..` twice is collapsing it once |
| Paths.MarkdownNameIff | src/md_file_graph/parser.py:152 | the suffix test holds exactly for names of at least four characters that end in `.md` in any case |
| Paths.Stem | src/md_file_graph/html_generator.py:178 | the stem followed by the suffix is the name |
| Paths.SortPaths | src/md_file_graph/parser.py:162 | `sorted` returns the same paths in ascending order |
| Sorting.PartsLtTransitive | src/md_file_graph/parser.py:162 | the path order is transitive (with irreflexivity and totality, a strict total order) |
| Graph.GraphBuilder.constructor | src/md_file_graph/graph.py:18-26 | a builder starts with its settings and no nodes, external nodes or edges |
| Graph.EdgeFor | src/md_file_graph/graph.py:37-62 | an edge starts at the link's source, carries the label `text (Lline)`, and points at a URL exactly when the link is external |
| Graph.GraphBuilder.AddLink | src/md_file_graph/graph.py:33-62 | one link adds its source node, its resolved target when internal, its URL and edge when external and included |
| Graph.GraphBuilder.AddLinks | src/md_file_graph/graph.py:28-62 | the fields grow by exactly the nodes, URLs and edges of the links, and the graph invariant is kept |
| Graph.NodesOfIff | src/md_file_graph/graph.py:33-55 | a path becomes a node exactly when it is some link's source or an internal link's resolved target |
| Graph.UrlsOfIff | src/md_file_graph/graph.py:37-39 | a URL becomes an external node exactly when external links are included and some external link targets it |
| Graph.EdgesOfIncluded | src/md_file_graph/graph.py:33-62 | with external links included, each link appends exactly its own edge, in order |
| Graph.EdgesOfExcluded | src/md_file_graph/graph.py:37-45 | without external links, the edges are those of the internal links alone and all point at files |
| Graph.EdgesOfWithin | src/md_file_graph/graph.py:33-62 | every appended edge has its endpoints among the nodes and URLs added with it |
| Graph.UrlsOfExcluded | src/md_file_graph/graph.py:37-39 | without external links no URL node is added |
| Graph.AddLinksKeepsInvariant | src/md_file_graph/graph.py:28-62 | adding links keeps every edge's endpoints recorded, and keeps URLs and URL edges absent when external links are off |
| Graph.ConnectedIff | src/md_file_graph/graph.py:71-78 | a node is connected exactly when it is the source or file target of an internal edge |
| Graph.ConnectedWithin | src/md_file_graph/graph.py:71-78 | connected nodes are nodes of the graph |
| Graph.TargetsConnected | src/md_file_graph/graph.py:71-78 | both ends of every internal edge are connected |
| Graph.GraphBuilder.GetConnectedNodes | src/md_file_graph/graph.py:71-78 | the loop over the edges returns exactly the connected nodes |
| Graph.RelativePathUnder | src/md_file_graph/graph.py:64-69 | for a path below the base, the base's string, `/` and the relative string give the path's string back |
| Graph.Sanitize | src/md_file_graph/graph.py:134 | sanitising keeps the length, yields only `[a-zA-Z0-9_]`, and keeps exactly the characters already in that class |
| Graph.CollapseUnderscoresSpec | src/md_file_graph/graph.py:136 | collapsing leaves no double underscore, keeps all other characters in order, and changes nothing that has none |
| Graph.CollapseMerge | src/md_file_graph/graph.py:136 | two underscores in a row collapse exactly as one does, wherever they occur, so every run becomes a single `_` (`a__b_c` gives `a_b_c`); with the fixed point above this determines the result for every text |
| Graph.NodeIdShape | src/md_file_graph/graph.py:129-137 | a node id is `node_` followed by id characters with no double underscore |
| Graph.NodeIdCollision | src/md_file_graph/graph.py:129-137 | `a-b.md` and `a_b.md` in the same directory get the same node id |
| Graph.EscapeLabelPerChar | src/md_file_graph/graph.py:146-152 | the three replacements, backslash first, escape each character independently |
| Graph.EscapeLabelSpec | src/md_file_graph/graph.py:146-152 | the escaped label has no raw newline, every `"` in it is escaped, and unescaping gives the label back |
| Graph.DisplayUrl | src/md_file_graph/graph.py:108 | a URL of up to 50 characters is shown whole; a longer one as its first 47 characters and `...` |
| Graph.UrlOrder | src/md_file_graph/graph.py:105 | external nodes are listed in strictly increasing string order |
| Graph.SortedNodes | src/md_file_graph/graph.py:93 | the file nodes are listed once each in strictly increasing path order |
| Graph.PrintNodes | src/md_file_graph/graph.py:93-101 | the node loop prints one line per included node in order |
| Graph.PrintUrls | src/md_file_graph/graph.py:104-109 | the URL loop prints one line per external node in order |
| Graph.PrintEdges | src/md_file_graph/graph.py:113-124 | the edge loop prints the lines of the shown edges in insertion order |
| Graph.GraphBuilder.GenerateDot | src/md_file_graph/graph.py:80-127 | returns the DOT text of the builder's current nodes, URLs and edges |
| Graph.DotFrame | src/md_file_graph/graph.py:82-127 | the DOT text starts with `digraph markdown_links {` and ends with `}` |
| Graph.DotNodeOrder | src/md_file_graph/graph.py:87-101 | after the header come the included file nodes, one line each, in sorted order |
| Graph.EdgeLinesAll | src/md_file_graph/graph.py:113-124 | with every edge shown, there is one line per edge, in insertion order |
| Graph.HideIsolatedKeepsEdges | src/md_file_graph/graph.py:122 | hiding isolated nodes never drops an internal edge |
| Graph.EdgeLabelLine | src/md_file_graph/graph.py:43 | the line number in an edge label reads back as the link's line number |
| Site.AnyPatternIn | src/md_file_graph/html_generator.py:159-162 | the pattern loop reports true exactly when some excluded pattern occurs in the path |
| Site.ShouldPublish | src/md_file_graph/html_generator.py:130-164 | a document is published exactly when its frontmatter does not say so, it has no do-not-publish tag, and no excluded pattern occurs in its `/`-joined path |
| Site.NestedExcludedDirectory | src/md_file_graph/html_generator.py:151-162 | a document below a nested `archive`, `.archive`, `draft` or `.draft` directory is not published |
| Site.DocArchiveExcluded | src/md_file_graph/html_generator.py:151-162 | a path through `doc/archive` is not published |
| Site.TopLevelArchivePublished | src/md_file_graph/html_generator.py:151-162 | a document in a top-level `archive` directory is published: the relative path has no `/` before `archive`, so `/archive/` does not occur |
| Site.RewriteHrefAsWritten | src/md_file_graph/html_generator.py:318-325 | web, mail and anchor hrefs, and hrefs not ending in `.md`, are left alone |
| Site.RewriteEndsHtmlAsWritten | src/md_file_graph/html_generator.py:318-325 | a rewritten page href ends in `.html` |
| Site.DotSlashAsWrittenBreaks | src/md_file_graph/html_generator.py:322-323 | removing every `./` turns `./a/../b.md` into `a/.b.html`, while `a/../b.md` becomes `a/../b.html` |
| Site.RewriteHref | src/md_file_graph/html_generator.py:318-325 | the corrected rewrite leaves the same hrefs alone |
| Site.RewriteEndsHtml | src/md_file_graph/html_generator.py:318-325 | a page href rewritten with only its leading `./` removed ends in `.html` |
| Site.DotSlashSameTarget | src/md_file_graph/html_generator.py:318-325 | `./x.md` and `x.md` are rewritten to the same href |
| Site.UpLinkRewritten | src/md_file_graph/html_generator.py:318-325 | `./a/../b.md` and `a/../b.md` both become `a/../b.html` |
| Metadata.FirstHeading | src/md_file_graph/html_generator.py:174 | `re.search` finds the leftmost position where `^#\s+(.+)$` matches, and no earlier position matches |
| Metadata.Title | src/md_file_graph/html_generator.py:172-178 | a set frontmatter title wins; otherwise the stripped group of the leftmost position where the heading pattern matches; with no match anywhere, the stem made into a title |
| Metadata.FirstLineTitle | src/md_file_graph/html_generator.py:172-176 | a first line `# t` gives the title `t`, stripped |
| Metadata.DoubleHashNoHeading | src/md_file_graph/html_generator.py:174 | `##` never starts the title heading |
| Metadata.LoneHashTakesNextLine | src/md_file_graph/html_generator.py:174-176 | because `\s` spans line breaks, a lone `#` line takes the next non-blank line as the title |
| Metadata.NoHashStemTitle | src/md_file_graph/html_generator.py:177-178 | with no frontmatter title and no `#`, the title is the file stem with `_` and `-` as spaces, title-cased |
| Strings.SpacedTitleShape | src/md_file_graph/html_generator.py:178 | the stem title keeps the name's length and holds neither `_` nor `-` |
| Metadata.ScanLineKeeps | src/md_file_graph/html_generator.py:186-210 | one iteration keeps every collected paragraph a collectable line, equal to its own strip, outside an HTML block, and breaks off exactly once the joined text passes 80 characters |
| Strings.StripIdem | src/md_file_graph/html_generator.py:186 | a stripped line strips to itself, so every line the loop looks at is already free of surrounding whitespace |
| Metadata.ScanLinesInvariant | src/md_file_graph/html_generator.py:183-210 | the loop keeps that invariant over any lines |
| Metadata.ScanStoppedStays | src/md_file_graph/html_generator.py:209-210 | once the loop has broken off, later lines change nothing |
| Metadata.ClosingTagReenters | src/md_file_graph/html_generator.py:187-191 | as written, a line starting with `</` sets the block flag instead of clearing it |
| Metadata.HtmlBlockSkipsText | src/md_file_graph/html_generator.py:184-196 | as written, text after a `<div>`…`</div>` block is not collected; with the closing test first it is |
| Metadata.ReadLine | src/md_file_graph/html_generator.py:186-210 | the loop body computes one scan step |
| Metadata.ExtractDescription | src/md_file_graph/html_generator.py:181-217 | the description is the frontmatter one when set, else the cleaned, cut paragraphs the line loop collects |
| Metadata.SubLinks | src/md_file_graph/html_generator.py:215 | link substitution only shortens the text and keeps only its characters |
| Metadata.LinkBecomesText | src/md_file_graph/html_generator.py:215 | a whole markdown link is replaced by its text |
| Metadata.LinkReplaced | src/md_file_graph/html_generator.py:215 | from any point, the text up to the next link is copied, that link becomes its text, and the substitution goes on after it |
| Metadata.LinkInText | src/md_file_graph/html_generator.py:215 | a link inside plain text is replaced by its text and the text around it is kept (`see [docs](d.md) here` gives `see docs here`) |
| Metadata.RemoveMarks | src/md_file_graph/html_generator.py:216 | no `*`, `_` or backtick survives, and nothing is added |
| Metadata.RemoveMarksChar | src/md_file_graph/html_generator.py:216 | a mark character is removed and any other character is kept |
| Metadata.RemoveMarksAppend | src/md_file_graph/html_generator.py:216 | marks are removed piece by piece, so every other character survives in order (`*a*` gives `a`) |
| Metadata.RemoveTags | src/md_file_graph/html_generator.py:217 | tag removal only shortens the text and keeps only its characters |
| Metadata.TagRemoved | src/md_file_graph/html_generator.py:217 | a closed tag `<t>` with a non-empty body is removed while the text before it is kept and removal goes on after it (`<b>x</b>` gives `x`) |
| Metadata.RemoveTagsShift | src/md_file_graph/html_generator.py:217 | what tag removal does to a text does not depend on what comes before the point where it starts |
| Metadata.CleanupShrinks | src/md_file_graph/html_generator.py:215-217 | cleanup never lengthens the text and leaves no emphasis or code marks |
| Metadata.CleanupPlain | src/md_file_graph/html_generator.py:215-217 | text without `[`, marks or `<` comes through cleanup unchanged |
| Metadata.DescriptionBounded | src/md_file_graph/html_generator.py:212-217 | a description found in the text has at most 300 characters and no emphasis or code marks |
| Strings.RStripChar | src/md_file_graph/html_generator.py:72 | the base URL keeps its prefix up to the trailing `/` run and no longer ends in `/` |
| Pages.SiteGenerator.constructor | src/md_file_graph/html_generator.py:72-92 | the generator starts with the base URL without trailing slashes and no pages |
| Pages.HtmlRelative | src/md_file_graph/html_generator.py:429 | `with_suffix('.html')` keeps the directories and changes only the last component |
| Pages.DocEntryShape | src/md_file_graph/html_generator.py:428-466 | a tree entry's path ends in `.html`, and its URL is the base URL, `/` and that path |
| Pages.DocEntryPlace | src/md_file_graph/html_generator.py:460-466 | the level counts the directories above the page, and the parent is empty exactly for a top-level page |
| Pages.PriorityReadme | src/md_file_graph/html_generator.py:453-457 | priority `0.8` goes to exactly the `README.md` pages |
| Pages.PagesAgreeAppend | src/md_file_graph/html_generator.py:453-466 | recording one page keeps the sitemap records and the tree entries in step, with the same URLs |
| Pages.SiteGenerator.GeneratePage | src/md_file_graph/html_generator.py:409-466 | the page's sitemap record and tree entry are appended, and the two lists stay in step |
| Pages.DateOnly | src/md_file_graph/html_generator.py:478 | the sitemap date is the longest `T`-free prefix of the modification time |
| Pages.UrlEntriesShape | src/md_file_graph/html_generator.py:477-487 | each page contributes exactly its six `<url>` lines, in order |
| Pages.SitemapShape | src/md_file_graph/html_generator.py:470-492 | the sitemap lists every page once (a permutation), sorted by URL with pages of equal URL in generation order, between a two-line header and `</urlset>` |
| Pages.SiteGenerator.GenerateSitemap | src/md_file_graph/html_generator.py:470-492 | the loop writes exactly the sitemap lines of the recorded pages |
| Pages.RootDirectoryJoinsRoot | src/md_file_graph/html_generator.py:524-531 | pages under a top-level `root` directory get the section name of top-level pages |
| Pages.FirstSeenGrows | src/md_file_graph/html_generator.py:521-537 | the section list built from the first docs is a prefix of the final list |
| Pages.FirstSeenShape | src/md_file_graph/html_generator.py:533-537 | each section name is listed once, and exactly the names that occur are listed |
| Pages.SectionsTitles | src/md_file_graph/html_generator.py:521-556 | the sections have distinct titles, and a title is present exactly when some doc belongs to it |
| Pages.SectionsItems | src/md_file_graph/html_generator.py:539-544 | each section holds the items of exactly its docs, in order, and is never empty |
| Pages.SectionsCoverDocs | src/md_file_graph/html_generator.py:521-544 | every doc is an item of its own section, and the sections hold as many items as there are docs |
| Pages.SectionsOrder | src/md_file_graph/html_generator.py:521-556 | sections are in first-seen order: those met among the first docs come first, in the same order |
| Pages.AddDoc | src/md_file_graph/html_generator.py:523-544 | one loop pass adds the doc's section name when new and appends its item to that section only |
| Pages.SiteGenerator.GenerateDocsJson | src/md_file_graph/html_generator.py:511-563 | the two loops return the sections of the doc tree taken in path order |
| Sorting.SortByStable | src/md_file_graph/html_generator.py:521 | `sorted` is stable: entries with equal keys keep their input order |

## Left out

- The MD5 hash of `_get_external_node_id` is not modelled. The external node id is a parameter `extId` of `GenerateDot`.
- `Path.exists()` in `generate_dot` is the input set `existing`. The colour of a node depends only on that set.
- `generate_svg` and the Graphviz call are left out because they are external programs.
- `resolve()` is modelled only lexically (`..` and `.` collapsed). Symbolic links are not followed.
- File reading works on the in-memory tree. Read errors, `PermissionError` and the printed warnings are not modelled.
- `fnmatch` is modelled for `*` and `?` only. Bracket classes are taken literally, and there is no case normalisation (which is a no-op on POSIX).
- `splitlines()` is modelled as a cut at every line-break character of the text read in text mode, which holds no `\r`. A final line break then gives an extra blank line, which is dropped like any blank line.
- The `content` of `Site.ShouldPublish` is the whole file text read in text mode, frontmatter included, so a `__DO_NOT_PUBLISH__` tag inside the frontmatter also blocks publication. `Metadata.Title` and `Metadata.ExtractDescription` receive only the body after frontmatter parsing. Both texts come from files opened in text mode, so their line endings are already `\n` (`Strings.ReadText`); the model does not apply `ReadText` to them again.
- A real directory never holds two entries of one name. The model's tree can, so the lemmas that need it (`WalkFindsFiles`, `WalkDistinct`, the file part of `MarkdownFilesSound`, `MarkdownFilesStrictlySorted`) assume `Parser.DistinctNames` of the disk. Completeness does not need it.
- `title()` and `lower()` change the case of ASCII letters only. `\s` and `isspace()` use Python's whitespace characters.
- The keywords of `extract_metadata` (`_extract_keywords_from_content`) are left out. Their order comes from `list(set(...))`, which Python does not fix.
- Frontmatter parsing, markdown rendering, templating, BeautifulSoup and JSON writing are external libraries. Their results enter the model as inputs: the frontmatter title, description and publish flag, the page's markdown text, and its modification time.
- `copy_images`, `generate_structured_data`, `generate_robots_txt`, `generate_all`, `load_config` and the command line are left out. They are file copying, fixed templates or orchestration.
- The rewriting of the HTML document around each href in `convert_markdown_links` is left out. Only the per-href rule is modelled.
- The `generated` timestamp (`datetime.now()`) and the `base_url` field of `docs.json` are left out. `GenerateDocsJson` returns only the `sections` list: the timestamp is a clock reading, and `base_url` is the generator's field, which the constructor row covers.
- Pages.SiteGenerator.GeneratePage models only the two records a page adds, not the HTML file it writes.
- The unused `MarkdownIt` instance of `MarkdownParser` has no effect and is not modelled.

## Findings

| source | as written | input that shows it | evidently intended | confidence | as-written member | corrected member |
|---|---|---|---|---|---|---|
| src/md_file_graph/html_generator.py:318-325 | `href.replace('./', '')` removes every `./`, including the one inside `../` | `./a/../b.md` is rewritten to `a/.b.html` instead of `a/../b.html` | remove only the leading `./` | not executed | Site.DotSlashAsWrittenBreaks | Site.UpLinkRewritten |
| src/md_file_graph/html_generator.py:187-193 | the `</` test comes after the `<` test, so it can never fire and a closing tag re-enters the HTML block | lines `<div>`, `</div>`, `Some text` give no description | a line starting with `</` ends the HTML block | not executed | Metadata.ClosingTagReenters | Metadata.HtmlBlockSkipsText |

`RewriteHref` is the corrected rewrite, and `DotSlashSameTarget` proves its
intended property for every page href. `Metadata.ExtractDescription` takes the
order of the two HTML-block tests as a parameter. `AsWritten` is the source's
order, and `CloseFirst` is the corrected one. `HtmlBlockSkipsText` states both
outcomes for the input above.
