/** `MarkdownParser` of md_file_graph/parser.py: discovering the markdown files
    of a directory tree (with the exclusion rules for third-party directories
    and `.gitignore` files), extracting `[text](target)` links from a file, and
    classifying and resolving link targets. The file system is an in-memory
    tree of entries. */
module Parser {
  import opened Wrappers
  import opened Strings
  import opened Sorting
  import opened Paths
  import opened Glob
  import opened LinkSyntax

  /** A link found in a markdown file. */
  datatype Link = Link(sourceFile: Path, target: string, linkText: string, lineNumber: nat, isExternal: bool)

  /** A file-system entry; the disk is the directory entry of `/`. A file's
      `content` is its text as stored; reading it as text translates its line
      endings (`ReadText`). */
  datatype Entry = File(name: string, content: string) | Dir(name: string, children: seq<Entry>)

  /** The first child with the given name. */
  function FindChild(children: seq<Entry>, name: string): (r: Option<Entry>)
    ensures r.Some? ==> r.value in children && r.value.name == name
    ensures r.None? ==> forall k :: 0 <= k < |children| ==> children[k].name != name
  {
    if children == [] then None
    else if children[0].name == name then Some(children[0])
    else FindChild(children[1..], name)
  }

  /** The entry reached from `e` along `parts`, if there is one. */
  function Lookup(e: Entry, parts: seq<string>): Option<Entry>
    decreases |parts|
  {
    if parts == [] then Some(e)
    else match e
      case File(_, _) => None
      case Dir(_, children) =>
        match FindChild(children, parts[0])
        case Some(c) => Lookup(c, parts[1..])
        case None => None
  }

  /** What a real directory guarantees: no two entries of one directory share
      a name, at any depth. */
  predicate DistinctNames(e: Entry) {
    e.Dir? ==>
      (forall i, j :: 0 <= i < j < |e.children| ==> e.children[i].name != e.children[j].name)
      && (forall i :: 0 <= i < |e.children| ==> DistinctNames(e.children[i]))
  }

  /** The entry at absolute path `p` on `disk`. */
  function At(disk: Entry, p: Path): Option<Entry> {
    Lookup(disk, p.parts)
  }

  /** `p.is_dir()`: false for a path that does not exist. */
  predicate IsDirAt(disk: Entry, p: Path) {
    At(disk, p).Some? && At(disk, p).value.Dir?
  }

  /** The third-party directories skipped by default. */
  const DefaultExcludeDirs: set<string> := {
    "node_modules", "vendor", "bower_components", ".git", ".svn", ".hg",
    "__pycache__", ".pytest_cache", ".mypy_cache", ".tox", ".nox", "venv",
    "env", "ENV", ".venv", "virtualenv", "target", "build", "dist", ".next",
    ".nuxt", ".cache", "pkg", "Pods", "Carthage"
  }

  /** The `exclude_dirs` a parser is built with: the defaults (when enabled)
      together with the user's additions. */
  function ExcludeDirsFor(useDefaultExcludes: bool, additionalExcludes: set<string>): (r: set<string>)
    ensures forall d :: d in r <==> (useDefaultExcludes && d in DefaultExcludeDirs) || d in additionalExcludes
  {
    (if useDefaultExcludes then DefaultExcludeDirs else {}) + additionalExcludes
  }

  // ---------------------------------------------------------------------------
  // `.gitignore` files

  /** Python's `str.splitlines()` on text read in text mode (so without `\r`)
      up to a final empty line: the text cut at every line-break character.
      (`splitlines` drops a final empty line; the extra empty piece this gives
      is a blank line, which `.gitignore` loading drops anyway.) */
  function SplitLines(s: string): (r: seq<string>)
    ensures |r| >= 1
    ensures forall k, j :: 0 <= k < |r| && 0 <= j < |r[k]| ==> !IsLineBreak(r[k][j])
  {
    if |s| == 0 then [""]
    else
      var rest := SplitLines(s[1..]);
      if IsLineBreak(s[0]) then [""] + rest else [[s[0]] + rest[0]] + rest[1..]
  }

  /** On text whose only line-break character is `\n` (text read in text mode
      holds no `\r`), the lines are the pieces of `split('\n')`; with
      `JoinSplit`, joining them with `\n` gives the text back. */
  lemma {:induction false} SplitLinesIsSplit(s: string)
    requires forall i :: 0 <= i < |s| ==> s[i] == '\n' || !IsLineBreak(s[i])
    ensures SplitLines(s) == Split(s, '\n')
  {
    if |s| > 0 {
      SplitLinesIsSplit(s[1..]);
    }
  }

  /** The lines of a `.gitignore` read in text mode, joined by `\n`, are the
      text it reads as. */
  lemma GitignoreLinesJoin(content: string)
    requires forall i :: 0 <= i < |content| ==> IsLineBreak(content[i]) ==> content[i] == '\n' || content[i] == '\r'
    ensures Join(SplitLines(ReadText(content)), "\n") == ReadText(content)
  {
    ReadTextChars(content);
    SplitLinesIsSplit(ReadText(content));
    JoinSplit(ReadText(content), '\n');
  }

  /** A stripped `.gitignore` line that is kept as a pattern. */
  predicate IsPatternLine(line: string) {
    line != "" && !StartsWith(line, "#")
  }

  /** The patterns kept from `lines`, in order. */
  function KeepPatterns(lines: seq<string>): seq<string> {
    if lines == [] then []
    else
      var init := KeepPatterns(lines[..|lines| - 1]);
      var line := Strip(lines[|lines| - 1]);
      if IsPatternLine(line) then init + [line] else init
  }

  /** The patterns of the `.gitignore` in directory `d`; none when it is missing
      or cannot be read as a file. */
  function GitignoreAt(disk: Entry, d: Path): seq<string> {
    match At(disk, Child(d, ".gitignore"))
    case Some(File(_, content)) => KeepPatterns(SplitLines(ReadText(content)))
    case _ => []
  }

  /** A kept pattern is exactly a stripped line that is neither blank nor a comment. */
  lemma KeepPatternsIff(lines: seq<string>, x: string)
    ensures x in KeepPatterns(lines) <==>
      exists i :: 0 <= i < |lines| && Strip(lines[i]) == x && IsPatternLine(x)
  {
    if x in KeepPatterns(lines) {
      KeepPatternsSound(lines, x);
    }
    forall i | 0 <= i < |lines| && Strip(lines[i]) == x && IsPatternLine(x)
      ensures x in KeepPatterns(lines)
    {
      KeepPatternsComplete(lines, i);
    }
  }

  lemma {:induction false} KeepPatternsSound(lines: seq<string>, x: string)
    requires x in KeepPatterns(lines)
    ensures exists i :: 0 <= i < |lines| && Strip(lines[i]) == x && IsPatternLine(x)
  {
    var init := lines[..|lines| - 1];
    if x in KeepPatterns(init) {
      KeepPatternsSound(init, x);
      var i :| 0 <= i < |init| && Strip(init[i]) == x && IsPatternLine(x);
      assert lines[i] == init[i];
    } else {
      assert Strip(lines[|lines| - 1]) == x;
    }
  }

  lemma {:induction false} KeepPatternsComplete(lines: seq<string>, i: nat)
    requires i < |lines| && IsPatternLine(Strip(lines[i]))
    ensures Strip(lines[i]) in KeepPatterns(lines)
  {
    var init := lines[..|lines| - 1];
    if i < |lines| - 1 {
      assert init[i] == lines[i];
      KeepPatternsComplete(init, i);
    }
  }

  /** A usable pattern: not blank, not a comment, no surrounding whitespace. */
  predicate IsCleanPattern(x: string) {
    IsPatternLine(x) && !IsSpace(x[0]) && !IsSpace(x[|x| - 1])
  }

  /** Every loaded pattern is clean. */
  lemma {:induction false} KeepPatternsClean(lines: seq<string>)
    ensures forall x :: x in KeepPatterns(lines) ==> IsCleanPattern(x)
  {
    if lines != [] {
      KeepPatternsClean(lines[..|lines| - 1]);
    }
  }

  // ---------------------------------------------------------------------------
  // Exclusion

  /** One `.gitignore` line applied to `rel`, the path relative to the directory
      holding the `.gitignore`. A pattern ending in `/` names a directory and
      excludes when any component matches it without its trailing slashes;
      any other pattern must match the whole relative path, directly or after
      some `/`. */
  predicate PatternExcludes(pattern: string, rel: seq<string>) {
    if EndsWith(pattern, "/") then
      exists j | 0 <= j < |rel| :: Match(rel[j], RStripChar(pattern, '/'))
    else
      Match(RelStr(rel), pattern) || Match(RelStr(rel), "**/" + pattern)
  }

  predicate AnyPatternExcludes(patterns: seq<string>, rel: seq<string>) {
    exists k | 0 <= k < |patterns| :: PatternExcludes(patterns[k], rel)
  }

  /** The `.gitignore` of the ancestor made of the first `k` components of
      `path` excludes `path`. */
  predicate GitignoreExcludesAt(disk: Entry, path: Path, k: nat)
    requires k <= |path.parts|
  {
    AnyPatternExcludes(GitignoreAt(disk, Path(path.parts[..k])), path.parts[k..])
  }

  /** The first directory whose `.gitignore` is consulted: the path itself for a
      directory, its parent otherwise. */
  function GitignoreStart(disk: Entry, path: Path): (r: Path)
    ensures IsPrefix(r.parts, path.parts)
  {
    if IsDirAt(disk, path) then path else Parent(path)
  }

  /** Some `.gitignore` between the start directory and `base` excludes `path`. */
  predicate ExcludedByGitignore(disk: Entry, path: Path, base: Path) {
    var start := GitignoreStart(disk, path);
    IsPrefix(base.parts, start.parts)
    && exists k | |base.parts| <= k <= |start.parts| :: GitignoreExcludesAt(disk, path, k)
  }

  /** Whether the `.gitignore` of the ancestor with `k` components excludes
      `path`, for every depth `k`. */
  function GitignoreHits(disk: Entry, path: Path): nat -> bool {
    (k: nat) => k <= |path.parts| && GitignoreExcludesAt(disk, path, k)
  }

  /** The upward walk as `_should_exclude_path` performs it, where `hit(k)`
      tells whether the `.gitignore` at depth `k` excludes the path: starting at
      `current`, while `current >= base`, try `current`'s `.gitignore`, stop
      after `base`, otherwise go on with the parent. */
  predicate WalkUp(hit: nat -> bool, base: Path, current: Path)
    decreases |current.parts|
  {
    !PathLt(current, base)
    && (hit(|current.parts|) || (current != base && WalkUp(hit, base, Parent(current))))
  }

  /** The walk finds an excluding `.gitignore` exactly when one sits in a
      directory between `base` and `current`: stopping at `base` and comparing
      with `>=` visit exactly those directories. */
  lemma {:induction false} WalkUpIff(hit: nat -> bool, base: Path, current: Path)
    requires IsPrefix(base.parts, current.parts) || PathLt(current, base)
    ensures WalkUp(hit, base, current) <==>
      IsPrefix(base.parts, current.parts) && exists k | |base.parts| <= k <= |current.parts| :: hit(k)
    decreases |current.parts|
  {
    PrefixNotAbove(base.parts, current.parts);
    if IsPrefix(base.parts, current.parts) && current != base {
      var parent := Parent(current);
      assert |current.parts| > |base.parts| by {
        assert |current.parts| == |base.parts| ==> current.parts == base.parts;
      }
      assert IsPrefix(base.parts, parent.parts) by {
        assert parent.parts[..|base.parts|] == current.parts[..|base.parts|];
      }
      WalkUpIff(hit, base, parent);
      if exists k | |base.parts| <= k <= |current.parts| :: hit(k) {
        var k :| |base.parts| <= k <= |current.parts| && hit(k);
        if k < |current.parts| {
          assert |base.parts| <= k <= |parent.parts|;
        }
      }
    }
  }

  /** `_should_exclude_path`: a path under `base` is excluded when one of its
      components below `base` is an excluded directory name, or (when
      `.gitignore` files are respected) a `.gitignore` excludes it. A path
      outside `base` is never excluded. */
  predicate Excluded(excludeDirs: set<string>, respectGitignore: bool, disk: Entry, path: Path, base: Path) {
    match RelativeTo(path, base)
    case None => false
    case Some(rel) =>
      (exists j | 0 <= j < |rel| :: rel[j] in excludeDirs)
      || (respectGitignore && ExcludedByGitignore(disk, path, base))
  }

  /** For a path under `base`, the upward walk from the start directory finds an
      excluding `.gitignore` exactly when `ExcludedByGitignore` says so. */
  lemma GitignoreWalkIff(disk: Entry, path: Path, base: Path)
    requires IsPrefix(base.parts, path.parts)
    ensures WalkUp(GitignoreHits(disk, path), base, GitignoreStart(disk, path)) == ExcludedByGitignore(disk, path, base)
  {
    var start := GitignoreStart(disk, path);
    assert IsPrefix(base.parts, start.parts) || PathLt(start, base) by {
      if |base.parts| == |path.parts| && !IsDirAt(disk, path) && |base.parts| > 0 {
        ProperPrefixLt(start.parts, base.parts);
      }
    }
    WalkUpIff(GitignoreHits(disk, path), base, start);
    forall k | |base.parts| <= k <= |start.parts|
      ensures GitignoreHits(disk, path)(k) == GitignoreExcludesAt(disk, path, k)
    {
    }
  }

  /** An ancestor cannot sort after its descendant. */
  lemma PrefixNotAbove(a: seq<string>, b: seq<string>)
    ensures IsPrefix(a, b) ==> !PartsLt(b, a)
  {
    if IsPrefix(a, b) {
      if |a| < |b| {
        ProperPrefixLt(a, b);
        PartsLtAsymmetric(a, b);
      } else {
        assert a == b;
        PartsLtIrreflexive(a);
      }
    }
  }

  /** An excluded directory name excludes everything below it as well. */
  lemma ExcludedNameInherited(excludeDirs: set<string>, respectGitignore: bool, disk: Entry, dir: Path, path: Path, base: Path)
    requires IsPrefix(base.parts, dir.parts) && IsPrefix(dir.parts, path.parts)
    requires exists j | |base.parts| <= j < |dir.parts| :: dir.parts[j] in excludeDirs
    ensures Excluded(excludeDirs, respectGitignore, disk, path, base)
  {
    var j :| |base.parts| <= j < |dir.parts| && dir.parts[j] in excludeDirs;
    var rel := path.parts[|base.parts|..];
    assert rel[j - |base.parts|] == dir.parts[j];
  }

  /** A pattern with no wildcard and no trailing `/` excludes exactly the path
      it spells out, at any depth below the `.gitignore`. */
  lemma LiteralPatternExcludes(pattern: string, rel: seq<string>)
    requires !HasWildcard(pattern) && !EndsWith(pattern, "/")
    ensures PatternExcludes(pattern, rel) <==>
      var s := RelStr(rel);
      s == pattern || exists j :: 0 <= j < |s| && s[j] == '/' && s[j + 1..] == pattern
  {
    var s := RelStr(rel);
    LiteralMatch(s, pattern);
    AnyDepthMatch(s, pattern);
    forall k | 1 <= k <= |s|
      ensures Match(s[k..], pattern) <==> s[k..] == pattern
    {
      LiteralMatch(s[k..], pattern);
    }
  }

  // ---------------------------------------------------------------------------
  // Discovery

  /** The exclusion test `find_markdown_files(base)` applies to every entry. */
  function ExclusionTest(excludeDirs: set<string>, respectGitignore: bool, disk: Entry, base: Path): Path -> bool {
    p => Excluded(excludeDirs, respectGitignore, disk, p, base)
  }

  /** The markdown files `scan_directory` appends while walking the first `n`
      entries of the directory `d` found at `dirPath`, where `skip` tells which
      paths are excluded. */
  function Walk(skip: Path -> bool, dirPath: Path, d: Entry, n: nat): seq<Path>
    requires d.Dir? && n <= |d.children|
    decreases d, n, 1
  {
    if n == 0 then []
    else Walk(skip, dirPath, d, n - 1) + WalkItem(skip, dirPath, d, n - 1)
  }

  /** What the entry `d.children[i]` contributes: nothing when it is excluded,
      itself when it is a markdown file, the walk of its entries when it is a
      directory. */
  function WalkItem(skip: Path -> bool, dirPath: Path, d: Entry, i: nat): seq<Path>
    requires d.Dir? && i < |d.children|
    decreases d, i + 1, 0
  {
    var item := d.children[i];
    var p := Child(dirPath, item.name);
    if skip(p) then []
    else if item.File? && IsMarkdownName(item.name) then [p]
    else if item.Dir? then Walk(skip, p, item, |item.children|)
    else []
  }

  /** `find_markdown_files(directory)`: the walk, sorted; nothing when the
      directory does not exist or is not a directory. */
  function MarkdownFiles(excludeDirs: set<string>, respectGitignore: bool, disk: Entry, directory: Path): (r: seq<Path>)
    ensures SortedBy(r, PathKey)
  {
    match At(disk, directory)
    case Some(d) =>
      if d.Dir? then SortPaths(Walk(ExclusionTest(excludeDirs, respectGitignore, disk, directory), directory, d, |d.children|)) else []
    case None => []
  }

  /** `f` is a markdown file name strictly below `dirPath`, and `skip` holds
      neither for `f` nor for any directory between `dirPath` and `f`. */
  predicate FoundBelow(skip: Path -> bool, dirPath: Path, f: Path) {
    IsMarkdownName(Name(f))
    && IsPrefix(dirPath.parts, f.parts) && |f.parts| > |dirPath.parts|
    && forall k :: |dirPath.parts| < k <= |f.parts| ==> !skip(Path(f.parts[..k]))
  }

  /** Every path a walk yields is found below the walked directory: the walk
      never yields or descends into a skipped entry. */
  lemma {:induction false} WalkSound(skip: Path -> bool, dirPath: Path, d: Entry, n: nat, f: Path)
    requires d.Dir? && n <= |d.children|
    requires f in Walk(skip, dirPath, d, n)
    ensures FoundBelow(skip, dirPath, f)
    decreases d, n, 1
  {
    assert n > 0;
    var before := Walk(skip, dirPath, d, n - 1);
    var last := WalkItem(skip, dirPath, d, n - 1);
    assert f in before || f in last by {
      assert Walk(skip, dirPath, d, n) == before + last;
    }
    if f in before {
      WalkSound(skip, dirPath, d, n - 1, f);
    } else {
      WalkItemSound(skip, dirPath, d, n - 1, f);
    }
  }

  lemma {:induction false} WalkItemSound(skip: Path -> bool, dirPath: Path, d: Entry, i: nat, f: Path)
    requires d.Dir? && i < |d.children|
    requires f in WalkItem(skip, dirPath, d, i)
    ensures FoundBelow(skip, dirPath, f)
    decreases d, i + 1, 0
  {
    var item := d.children[i];
    var p := Child(dirPath, item.name);
    assert !skip(p);
    if item.File? && IsMarkdownName(item.name) {
      assert f == p;
      assert f.parts[..|f.parts|] == p.parts;
    } else {
      assert item.Dir?;
      WalkSound(skip, p, item, |item.children|, f);
      FoundBelowChild(skip, dirPath, item.name, f);
    }
  }

  /** Found below a directory that is not skipped is found below its parent. */
  lemma FoundBelowChild(skip: Path -> bool, dirPath: Path, name: string, f: Path)
    requires !skip(Child(dirPath, name)) && FoundBelow(skip, Child(dirPath, name), f)
    ensures FoundBelow(skip, dirPath, f)
  {
    var p := Child(dirPath, name);
    assert f.parts[..|p.parts|] == p.parts;
    assert IsPrefix(dirPath.parts, f.parts) by {
      assert f.parts[..|dirPath.parts|] == p.parts[..|dirPath.parts|];
    }
    forall k | |dirPath.parts| < k <= |f.parts|
      ensures !skip(Path(f.parts[..k]))
    {
      if k == |p.parts| {
        assert Path(f.parts[..k]) == p;
      }
    }
  }

  /** What `find_markdown_files` returns: sorted markdown files strictly below
      the directory, none of them excluded and none reached through an excluded
      directory. */
  lemma MarkdownFilesSound(excludeDirs: set<string>, respectGitignore: bool, disk: Entry, directory: Path, f: Path)
    requires f in MarkdownFiles(excludeDirs, respectGitignore, disk, directory)
    ensures IsMarkdownName(Name(f))
    ensures IsPrefix(directory.parts, f.parts) && |f.parts| > |directory.parts|
    ensures forall k :: |directory.parts| < k <= |f.parts| ==>
      !Excluded(excludeDirs, respectGitignore, disk, Path(f.parts[..k]), directory)
    ensures DistinctNames(disk) ==> At(disk, f).Some? && At(disk, f).value.File?
  {
    var d := At(disk, directory).value;
    var skip := ExclusionTest(excludeDirs, respectGitignore, disk, directory);
    var found := Walk(skip, directory, d, |d.children|);
    assert f in multiset(SortPaths(found));
    WalkSound(skip, directory, d, |d.children|, f);
    if DistinctNames(disk) {
      WalkedIsFile(skip, disk, directory, d, f);
    }
  }

  /** Where names are distinct, what the walk of a directory of the disk
      yields is a file of the disk. */
  lemma WalkedIsFile(skip: Path -> bool, disk: Entry, directory: Path, d: Entry, f: Path)
    requires DistinctNames(disk) && At(disk, directory) == Some(d) && d.Dir?
    requires f in Walk(skip, directory, d, |d.children|)
    ensures At(disk, f).Some? && At(disk, f).value.File?
  {
    assert IsPrefix(directory.parts, f.parts) by {
      LookupDistinct(disk, directory.parts);
      WalkFindsFiles(skip, directory, d, |d.children|, f);
    }
    var rest := f.parts[|directory.parts|..];
    assert Lookup(d, rest).Some? && Lookup(d, rest).value.File? by {
      LookupDistinct(disk, directory.parts);
      WalkFindsFiles(skip, directory, d, |d.children|, f);
    }
    assert f.parts == directory.parts + rest;
    LookupAppend(disk, directory.parts, rest);
  }

  /** Looking up `a + b` is looking up `a`, then `b` from there. */
  lemma {:induction false} LookupAppend(e: Entry, a: seq<string>, b: seq<string>)
    ensures Lookup(e, a + b) == match Lookup(e, a) case Some(x) => Lookup(x, b) case None => None
    decreases |a|
  {
    if a != [] {
      assert (a + b)[0] == a[0] && (a + b)[1..] == a[1..] + b;
      match e
      case File(_, _) =>
      case Dir(_, children) =>
        match FindChild(children, a[0])
        case Some(c) => LookupAppend(c, a[1..], b);
        case None =>
    } else {
      assert a + b == b;
    }
  }

  /** Every entry of a directory tree with distinct names has distinct names. */
  lemma {:induction false} LookupDistinct(e: Entry, parts: seq<string>)
    requires DistinctNames(e) && Lookup(e, parts).Some?
    ensures DistinctNames(Lookup(e, parts).value)
    decreases |parts|
  {
    if parts != [] {
      var c := FindChild(e.children, parts[0]).value;
      var j :| 0 <= j < |e.children| && e.children[j] == c;
      LookupDistinct(c, parts[1..]);
    }
  }

  /** Where names are distinct, looking a child's name up finds that child. */
  lemma {:induction false} FindChildOf(children: seq<Entry>, j: nat)
    requires j < |children|
    requires forall a, b :: 0 <= a < b < |children| ==> children[a].name != children[b].name
    ensures FindChild(children, children[j].name) == Some(children[j])
  {
    if j > 0 {
      assert children[0].name != children[j].name;
      FindChildOf(children[1..], j - 1);
    }
  }

  /** What a walk yields reaches from the walked directory the entry that the
      walk added, and that entry is a file. */
  lemma {:induction false} WalkFindsFiles(skip: Path -> bool, dirPath: Path, d: Entry, n: nat, f: Path)
    requires d.Dir? && n <= |d.children| && DistinctNames(d)
    requires f in Walk(skip, dirPath, d, n)
    ensures IsPrefix(dirPath.parts, f.parts)
    ensures var e := Lookup(d, f.parts[|dirPath.parts|..]); e.Some? && e.value.File?
    decreases d, n, 1
  {
    if f in Walk(skip, dirPath, d, n - 1) {
      WalkFindsFiles(skip, dirPath, d, n - 1, f);
    } else {
      WalkItemFindsFiles(skip, dirPath, d, n - 1, f);
    }
  }

  lemma {:induction false} WalkItemFindsFiles(skip: Path -> bool, dirPath: Path, d: Entry, i: nat, f: Path)
    requires d.Dir? && i < |d.children| && DistinctNames(d)
    requires f in WalkItem(skip, dirPath, d, i)
    ensures IsPrefix(dirPath.parts, f.parts)
    ensures var e := Lookup(d, f.parts[|dirPath.parts|..]); e.Some? && e.value.File?
    decreases d, i + 1, 0
  {
    var item := d.children[i];
    var p := Child(dirPath, item.name);
    FindChildOf(d.children, i);
    var rest: seq<string>;
    if !skip(p) && item.Dir? {
      assert IsPrefix(p.parts, f.parts)
        && Lookup(item, f.parts[|p.parts|..]).Some? && Lookup(item, f.parts[|p.parts|..]).value.File? by {
        assert WalkItem(skip, dirPath, d, i) == Walk(skip, p, item, |item.children|);
        WalkFindsFiles(skip, p, item, |item.children|, f);
      }
      rest := f.parts[|p.parts|..];
      assert f.parts == p.parts + rest;
    } else {
      rest := [];
      assert f.parts == p.parts + rest && Lookup(item, rest).Some? && Lookup(item, rest).value.File? by {
        assert f == p && item.File?;
      }
    }
    assert f.parts[..|dirPath.parts|] == dirPath.parts && f.parts[|dirPath.parts|..] == [item.name] + rest by {
      ConcatAssoc(dirPath.parts, [item.name], rest);
    }
    LookupChild(d, i, rest);
  }

  /** Looking up a child's name, then `rest`, is looking up `rest` from that
      child, where names are distinct. */
  lemma LookupChild(d: Entry, i: nat, rest: seq<string>)
    requires d.Dir? && i < |d.children| && FindChild(d.children, d.children[i].name) == Some(d.children[i])
    ensures Lookup(d, [d.children[i].name] + rest) == Lookup(d.children[i], rest)
  {
    assert ([d.children[i].name] + rest)[1..] == rest;
  }

  /** A walk yields every item it walks. */
  lemma {:induction false} WalkHasItem(skip: Path -> bool, dirPath: Path, d: Entry, n: nat, j: nat, f: Path)
    requires d.Dir? && j < n <= |d.children|
    requires f in WalkItem(skip, dirPath, d, j)
    ensures f in Walk(skip, dirPath, d, n)
  {
    if j < n - 1 {
      WalkHasItem(skip, dirPath, d, n - 1, j, f);
    }
  }

  /** The walk finds every markdown file below the walked directory that it
      reaches without passing through a skipped path. */
  lemma {:induction false} WalkComplete(skip: Path -> bool, dirPath: Path, d: Entry, f: Path)
    requires d.Dir? && IsPrefix(dirPath.parts, f.parts) && |f.parts| > |dirPath.parts|
    requires var e := Lookup(d, f.parts[|dirPath.parts|..]); e.Some? && e.value.File?
    requires IsMarkdownName(Name(f))
    requires forall k :: |dirPath.parts| < k <= |f.parts| ==> !skip(Path(f.parts[..k]))
    ensures f in Walk(skip, dirPath, d, |d.children|)
    decreases |f.parts| - |dirPath.parts|
  {
    var rest := f.parts[|dirPath.parts|..];
    var c := FindChild(d.children, rest[0]).value;
    var j :| 0 <= j < |d.children| && d.children[j] == c;
    var p := Child(dirPath, c.name);
    assert f in WalkItem(skip, dirPath, d, j) by {
      assert p == Path(f.parts[..|dirPath.parts| + 1]);
      assert !skip(p);
      if |rest| == 1 {
        assert f.parts == f.parts[..|dirPath.parts| + 1];
        assert WalkItem(skip, dirPath, d, j) == [p];
      } else {
        assert f.parts[|p.parts|..] == rest[1..];
        assert f.parts[..|p.parts|] == p.parts;
        WalkComplete(skip, p, c, f);
      }
    }
    WalkHasItem(skip, dirPath, d, |d.children|, j, f);
  }

  /** Everything an item of a walk yields lies below that item. */
  lemma WalkItemHead(skip: Path -> bool, dirPath: Path, d: Entry, i: nat, f: Path)
    requires d.Dir? && i < |d.children|
    ensures f in WalkItem(skip, dirPath, d, i) ==>
      |f.parts| > |dirPath.parts| && f.parts[|dirPath.parts|] == d.children[i].name
  {
    var item := d.children[i];
    var p := Child(dirPath, item.name);
    assert p.parts[|dirPath.parts|] == item.name;
    if f in WalkItem(skip, dirPath, d, i) {
      if !skip(p) && item.Dir? {
        assert WalkItem(skip, dirPath, d, i) == Walk(skip, p, item, |item.children|);
        WalkSound(skip, p, item, |item.children|, f);
        assert f.parts[..|p.parts|] == p.parts;
        assert f.parts[|dirPath.parts|] == f.parts[..|p.parts|][|dirPath.parts|];
      } else {
        assert f == p;
      }
    }
  }

  /** Everything a walk yields comes from one of the walked items. */
  lemma {:induction false} WalkHeads(skip: Path -> bool, dirPath: Path, d: Entry, n: nat, f: Path)
    requires d.Dir? && n <= |d.children|
    requires f in Walk(skip, dirPath, d, n)
    ensures exists j :: 0 <= j < n && f in WalkItem(skip, dirPath, d, j)
  {
    if f !in WalkItem(skip, dirPath, d, n - 1) {
      WalkHeads(skip, dirPath, d, n - 1, f);
    }
  }

  /** Where names are distinct, a walk yields no path twice (`iterdir` lists
      each entry once). */
  lemma {:induction false} WalkDistinct(skip: Path -> bool, dirPath: Path, d: Entry, n: nat)
    requires d.Dir? && n <= |d.children| && DistinctNames(d)
    ensures Distinct(Walk(skip, dirPath, d, n))
    decreases d, n, 1
  {
    if n > 0 {
      var before := Walk(skip, dirPath, d, n - 1);
      var last := WalkItem(skip, dirPath, d, n - 1);
      assert Distinct(before + last) by {
        WalkDistinct(skip, dirPath, d, n - 1);
        WalkItemDistinct(skip, dirPath, d, n - 1);
        WalkItemsApart(skip, dirPath, d, n - 1);
        DistinctConcat(before, last);
      }
      assert Walk(skip, dirPath, d, n) == before + last;
    }
  }

  /** Where names are distinct, an item yields nothing the items before it yield. */
  lemma WalkItemsApart(skip: Path -> bool, dirPath: Path, d: Entry, n: nat)
    requires d.Dir? && n < |d.children| && DistinctNames(d)
    ensures forall x :: x in Walk(skip, dirPath, d, n) ==> x !in WalkItem(skip, dirPath, d, n)
  {
    forall x | x in Walk(skip, dirPath, d, n)
      ensures x !in WalkItem(skip, dirPath, d, n)
    {
      WalkHeads(skip, dirPath, d, n, x);
      var j :| 0 <= j < n && x in WalkItem(skip, dirPath, d, j);
      WalkItemHead(skip, dirPath, d, j, x);
      WalkItemHead(skip, dirPath, d, n, x);
      assert d.children[j].name != d.children[n].name;
    }
  }

  lemma {:induction false} WalkItemDistinct(skip: Path -> bool, dirPath: Path, d: Entry, i: nat)
    requires d.Dir? && i < |d.children| && DistinctNames(d)
    ensures Distinct(WalkItem(skip, dirPath, d, i))
    decreases d, i + 1, 0
  {
    var item := d.children[i];
    if item.Dir? {
      WalkDistinct(skip, Child(dirPath, item.name), item, |item.children|);
    }
  }

  /** Where names are distinct, `find_markdown_files` lists each file once, in
      strictly increasing path order. */
  lemma MarkdownFilesStrictlySorted(excludeDirs: set<string>, respectGitignore: bool, disk: Entry, directory: Path)
    requires DistinctNames(disk)
    ensures StrictlySortedBy(MarkdownFiles(excludeDirs, respectGitignore, disk, directory), PathKey)
  {
    match At(disk, directory)
    case Some(d) =>
      if d.Dir? {
        LookupDistinct(disk, directory.parts);
        var skip := ExclusionTest(excludeDirs, respectGitignore, disk, directory);
        WalkDistinct(skip, directory, d, |d.children|);
        assert Injective(PathKey);
        SortDistinctStrict(Walk(skip, directory, d, |d.children|), PathKey);
      }
    case None =>
  }

  /** `find_markdown_files` finds every markdown file strictly below the
      directory when neither it nor a directory on the way down is excluded. */
  lemma MarkdownFilesComplete(excludeDirs: set<string>, respectGitignore: bool, disk: Entry, directory: Path, f: Path)
    requires At(disk, f).Some? && At(disk, f).value.File? && IsMarkdownName(Name(f))
    requires IsPrefix(directory.parts, f.parts) && |f.parts| > |directory.parts|
    requires forall k :: |directory.parts| < k <= |f.parts| ==>
      !Excluded(excludeDirs, respectGitignore, disk, Path(f.parts[..k]), directory)
    ensures f in MarkdownFiles(excludeDirs, respectGitignore, disk, directory)
  {
    var rest := f.parts[|directory.parts|..];
    assert f.parts == directory.parts + rest;
    LookupAppend(disk, directory.parts, rest);
    var d := At(disk, directory).value;
    assert d.Dir?;
    var skip := ExclusionTest(excludeDirs, respectGitignore, disk, directory);
    WalkComplete(skip, directory, d, f);
    var found := Walk(skip, directory, d, |d.children|);
    assert f in multiset(found);
  }

  // ---------------------------------------------------------------------------
  // Links

  /** `_is_external_link`: a URL with one of four schemes, or protocol-relative.
      The test is case-sensitive. */
  predicate IsExternalLink(target: string) {
    StartsWith(target, "http://") || StartsWith(target, "https://") || StartsWith(target, "ftp://")
    || StartsWith(target, "mailto:") || StartsWith(target, "//")
  }

  /** The classification looks only at a prefix of the target: whatever follows
      an external target, it stays external, and any prefix of an internal
      target is internal. */
  lemma ExternalByPrefix(t: string, u: string)
    ensures IsExternalLink(t) ==> IsExternalLink(t + u)
    ensures !IsExternalLink(t + u) ==> !IsExternalLink(t)
  {
    if IsExternalLink(t) {
      var tu := t + u;
      assert forall n :: 0 <= n <= |t| ==> tu[..n] == t[..n];
    }
  }

  /** The link a regex match gives on line `lineNumber`, if it is kept:
      internal targets lose their `#` fragment, and empty targets are dropped. */
  function LinkOf(src: Path, lineNumber: nat, m: RawLink): Option<Link> {
    var external := IsExternalLink(m.target);
    var target := if !external && '#' in m.target then Split(m.target, '#')[0] else m.target;
    if target != "" then Some(Link(src, target, m.text, lineNumber, external)) else None
  }

  /** A kept link has a non-empty target classified like the link itself; an
      external target is kept whole, an internal one is the raw target up to its
      first `#`. A match is dropped exactly when its target is empty or is an
      internal pure fragment. */
  lemma LinkOfShape(src: Path, lineNumber: nat, m: RawLink)
    ensures LinkOf(src, lineNumber, m).None? <==>
      m.target == "" || (!IsExternalLink(m.target) && m.target[0] == '#')
    ensures LinkOf(src, lineNumber, m).Some? ==>
      var l := LinkOf(src, lineNumber, m).value;
      && l.sourceFile == src && l.linkText == m.text && l.lineNumber == lineNumber
      && l.target != "" && l.isExternal == IsExternalLink(l.target)
      && (l.isExternal ==> l.target == m.target)
      && (!l.isExternal ==> '#' !in l.target && StartsWith(m.target, l.target)
                            && (|l.target| < |m.target| ==> m.target[|l.target|] == '#'))
  {
    SplitHead(m.target, '#');
    var cut := Split(m.target, '#')[0];
    assert '#' !in cut;
    if !IsExternalLink(m.target) {
      ExternalByPrefix(cut, m.target[|cut|..]);
      assert cut + m.target[|cut|..] == m.target;
      if m.target != [] && m.target[0] == '#' {
        assert cut == [];
      }
      if cut == [] && m.target != [] && '#' in m.target {
        assert m.target[0] == '#';
      }
    }
  }

  /** The kept links of the matches `ms`, all on line `lineNumber`. */
  function LinksOfMatches(src: Path, lineNumber: nat, ms: seq<RawLink>): seq<Link> {
    if ms == [] then []
    else
      LinksOfMatches(src, lineNumber, ms[..|ms| - 1])
      + match LinkOf(src, lineNumber, ms[|ms| - 1]) case Some(l) => [l] case None => []
  }

  /** The links of line `lines[i]`, whose number is `i + 1`. */
  function LineLinks(src: Path, lines: seq<string>, i: nat): seq<Link>
    requires i < |lines|
  {
    LinksOfMatches(src, i + 1, MatchesFrom(lines[i], 0))
  }

  /** The links of the first `n` lines of a file. */
  function LinesLinks(src: Path, lines: seq<string>, n: nat): seq<Link>
    requires n <= |lines|
  {
    if n == 0 then [] else LinesLinks(src, lines, n - 1) + LineLinks(src, lines, n - 1)
  }

  /** `extract_links(file_path)`: the links of every `\n`-separated line of the
      file read as text; nothing when the file cannot be read. */
  function ExtractedLinks(disk: Entry, src: Path): seq<Link> {
    match At(disk, src)
    case Some(File(_, content)) =>
      var lines := Split(ReadText(content), '\n');
      LinesLinks(src, lines, |lines|)
    case _ => []
  }

  /** A line's kept links are exactly the links its matches give. */
  lemma LinksOfMatchesIff(src: Path, lineNumber: nat, ms: seq<RawLink>, l: Link)
    ensures l in LinksOfMatches(src, lineNumber, ms) <==>
      exists j :: 0 <= j < |ms| && LinkOf(src, lineNumber, ms[j]) == Some(l)
  {
    if l in LinksOfMatches(src, lineNumber, ms) {
      LinksOfMatchesSound(src, lineNumber, ms, l);
    }
    forall j | 0 <= j < |ms| && LinkOf(src, lineNumber, ms[j]) == Some(l)
      ensures l in LinksOfMatches(src, lineNumber, ms)
    {
      LinksOfMatchesComplete(src, lineNumber, ms, j);
    }
  }

  lemma {:induction false} LinksOfMatchesSound(src: Path, lineNumber: nat, ms: seq<RawLink>, l: Link)
    requires l in LinksOfMatches(src, lineNumber, ms)
    ensures exists j :: 0 <= j < |ms| && LinkOf(src, lineNumber, ms[j]) == Some(l)
  {
    var init := ms[..|ms| - 1];
    if l in LinksOfMatches(src, lineNumber, init) {
      LinksOfMatchesSound(src, lineNumber, init, l);
      var j :| 0 <= j < |init| && LinkOf(src, lineNumber, init[j]) == Some(l);
      assert ms[j] == init[j];
    } else {
      assert LinkOf(src, lineNumber, ms[|ms| - 1]) == Some(l);
    }
  }

  lemma {:induction false} LinksOfMatchesComplete(src: Path, lineNumber: nat, ms: seq<RawLink>, j: nat)
    requires j < |ms| && LinkOf(src, lineNumber, ms[j]).Some?
    ensures LinkOf(src, lineNumber, ms[j]).value in LinksOfMatches(src, lineNumber, ms)
  {
    var init := ms[..|ms| - 1];
    if j < |ms| - 1 {
      assert init[j] == ms[j];
      LinksOfMatchesComplete(src, lineNumber, init, j);
    }
  }

  /** A link is extracted from the first `n` lines exactly when the matches of
      one of those lines give it, with that line's 1-based number. */
  lemma LinesLinksIff(src: Path, lines: seq<string>, n: nat, l: Link)
    requires n <= |lines|
    ensures l in LinesLinks(src, lines, n) <==> exists i :: 0 <= i < n && l in LineLinks(src, lines, i)
  {
    if l in LinesLinks(src, lines, n) {
      LinesLinksSound(src, lines, n, l);
    }
    forall i | 0 <= i < n && l in LineLinks(src, lines, i)
      ensures l in LinesLinks(src, lines, n)
    {
      LinesLinksComplete(src, lines, n, i, l);
    }
  }

  lemma {:induction false} LinesLinksSound(src: Path, lines: seq<string>, n: nat, l: Link)
    requires n <= |lines| && l in LinesLinks(src, lines, n)
    ensures exists i :: 0 <= i < n && l in LineLinks(src, lines, i)
  {
    var before := LinesLinks(src, lines, n - 1);
    var last := LineLinks(src, lines, n - 1);
    assert LinesLinks(src, lines, n) == before + last;
    if l in before {
      LinesLinksSound(src, lines, n - 1, l);
    } else {
      assert l in last;
    }
  }

  lemma {:induction false} LinesLinksComplete(src: Path, lines: seq<string>, n: nat, i: nat, l: Link)
    requires i < n <= |lines| && l in LineLinks(src, lines, i)
    ensures l in LinesLinks(src, lines, n)
  {
    var before := LinesLinks(src, lines, n - 1);
    var last := LineLinks(src, lines, n - 1);
    assert LinesLinks(src, lines, n) == before + last;
    if i < n - 1 {
      LinesLinksComplete(src, lines, n - 1, i, l);
      assert l in before;
    } else {
      assert l in last;
    }
  }

  /** Links come in line order, and each carries the number of a line of the file. */
  lemma {:induction false} LinesLinksOrdered(src: Path, lines: seq<string>, n: nat)
    requires n <= |lines|
    ensures forall a :: 0 <= a < |LinesLinks(src, lines, n)| ==> 1 <= LinesLinks(src, lines, n)[a].lineNumber <= n
    ensures forall a, b :: 0 <= a < b < |LinesLinks(src, lines, n)| ==>
      LinesLinks(src, lines, n)[a].lineNumber <= LinesLinks(src, lines, n)[b].lineNumber
  {
    if n > 0 {
      LinesLinksOrdered(src, lines, n - 1);
      var ms := MatchesFrom(lines[n - 1], 0);
      var last := LinksOfMatches(src, n, ms);
      forall x | x in last
        ensures x.lineNumber == n
      {
        LinksOfMatchesIff(src, n, ms, x);
      }
    }
  }

  /** Line `line` has a `[text](target)` match whose text is the link's. */
  predicate FromMatch(line: string, l: Link) {
    exists m :: m in MatchesFrom(line, 0) && Spells(line, m) && m.text == l.linkText
  }

  /** The links of one line come from its matches. */
  lemma LineLinkShape(src: Path, lines: seq<string>, i: nat, l: Link)
    requires i < |lines| && l in LineLinks(src, lines, i)
    ensures l.lineNumber == i + 1 && FromMatch(lines[i], l)
    ensures l.sourceFile == src && l.linkText != "" && ']' !in l.linkText
    ensures l.target != "" && l.isExternal == IsExternalLink(l.target)
    ensures !l.isExternal ==> '#' !in l.target
  {
    var ms := MatchesFrom(lines[i], 0);
    LinksOfMatchesIff(src, i + 1, ms, l);
    var j :| 0 <= j < |ms| && LinkOf(src, i + 1, ms[j]) == Some(l);
    LinkOfShape(src, i + 1, ms[j]);
    MatchesShape(lines[i], 0);
    assert ms[j] in ms;
  }

  /** What `extract_links` promises about every link it returns: it comes from a
      `[text](target)` match on its own line (so its text is non-empty without
      `]`), its target is non-empty and classified as the link says, and an
      internal target carries no fragment. */
  lemma ExtractedLinkShape(disk: Entry, src: Path, l: Link)
    requires l in ExtractedLinks(disk, src)
    ensures At(disk, src).Some? && At(disk, src).value.File?
    ensures var lines := Split(ReadText(At(disk, src).value.content), '\n');
      1 <= l.lineNumber <= |lines| && FromMatch(lines[l.lineNumber - 1], l)
    ensures l.sourceFile == src && l.linkText != "" && ']' !in l.linkText
    ensures l.target != "" && l.isExternal == IsExternalLink(l.target)
    ensures !l.isExternal ==> '#' !in l.target
  {
    var lines := Split(ReadText(At(disk, src).value.content), '\n');
    LinesLinksIff(src, lines, |lines|, l);
    var i :| 0 <= i < |lines| && l in LineLinks(src, lines, i);
    LineLinkShape(src, lines, i, l);
  }

  /** `resolve_internal_link`: a target starting with `/` is taken from `base`
      after all its leading slashes are dropped (without normalisation); any
      other target is joined to the source file's directory and `.`/`..` are
      collapsed. */
  function ResolveInternalLink(source: Path, target: string, base: Path): Path {
    if StartsWith(target, "/") then Path(base.parts + ParseParts(LStripChar(target, '/')))
    else Path(Normalize(Parent(source).parts + ParseParts(target)))
  }

  /** A root-relative target stays below `base` lexically, and its components are
      exactly those written in the target. */
  lemma RootRelativeResolution(source: Path, target: string, base: Path)
    requires StartsWith(target, "/")
    ensures var r := ResolveInternalLink(source, target, base);
      RelativeTo(r, base) == Some(ParseParts(LStripChar(target, '/')))
  {
  }

  /** A source-relative target resolves to a path without `..`, built only from
      components of the source's directory and of the target; without `..` in
      either it is their plain concatenation. */
  lemma SourceRelativeResolution(source: Path, target: string, base: Path)
    requires !StartsWith(target, "/")
    ensures var r := ResolveInternalLink(source, target, base);
      && ".." !in r.parts
      && (forall c :: c in r.parts ==> c in Parent(source).parts || c in ParseParts(target))
      && (".." !in source.parts && ".." !in ParseParts(target) ==>
            r.parts == Parent(source).parts + ParseParts(target))
  {
    var joined := Parent(source).parts + ParseParts(target);
    NormalizeNoDotDot(joined);
    if ".." !in source.parts && ".." !in ParseParts(target) {
      assert ".." !in Parent(source).parts by {
        assert forall c :: c in Parent(source).parts ==> c in source.parts;
      }
      NormalizeIdentity(joined);
    }
  }

  /** In a source-relative resolution, a `..` cancels the component before it,
      whether that component comes from the source's directory or from the
      target: from `/d/a/b.md`, `../c.md` gives `/d/c.md` and `x/../c.md`
      gives `/d/a/c.md`. */
  lemma SourceRelativeUp(source: Path, target: string, base: Path, i: nat)
    requires !StartsWith(target, "/")
    requires var joined := Parent(source).parts + ParseParts(target);
      i + 1 < |joined| && joined[i] != ".." && joined[i + 1] == ".."
    ensures var joined := Parent(source).parts + ParseParts(target);
      ResolveInternalLink(source, target, base).parts == Normalize(joined[..i] + joined[i + 2..])
  {
    var joined := Parent(source).parts + ParseParts(target);
    assert joined == joined[..i] + [joined[i], ".."] + joined[i + 2..];
    NormalizeCancel(joined[..i], joined[i], joined[i + 2..]);
  }

  /** Resolving a source-relative link twice changes nothing: the resolved path
      is already normal. */
  lemma ResolveIdempotent(source: Path, target: string, base: Path)
    requires !StartsWith(target, "/")
    ensures Normalize(ResolveInternalLink(source, target, base).parts) == ResolveInternalLink(source, target, base).parts
  {
    NormalizeIdempotent(Parent(source).parts + ParseParts(target));
  }

  /** The `for part in rel_path.parts` loop of `_should_exclude_path`: is one
      of the components an excluded directory name? */
  method AnyExcludedName(parts: seq<string>, excludeDirs: set<string>) returns (found: bool)
    ensures found <==> exists j | 0 <= j < |parts| :: parts[j] in excludeDirs
  {
    for i := 0 to |parts|
      invariant forall j :: 0 <= j < i ==> parts[j] !in excludeDirs
    {
      if parts[i] in excludeDirs {
        return true;
      }
    }
    return false;
  }

  /** The line loop of `extract_links` for one line: the kept links of its
      matches, in order. */
  method LinksOfLine(src: Path, lineNumber: nat, line: string) returns (links: seq<Link>)
    ensures links == LinksOfMatches(src, lineNumber, MatchesFrom(line, 0))
  {
    var matches := MatchesFrom(line, 0);
    links := [];
    for j := 0 to |matches|
      invariant links == LinksOfMatches(src, lineNumber, matches[..j])
    {
      var linkText := matches[j].text;
      var target := matches[j].target;
      var isExternal := IsExternalLink(target);
      if !isExternal && '#' in target {
        target := Split(target, '#')[0];
      }
      if target != "" {
        links := links + [Link(src, target, linkText, lineNumber, isExternal)];
      }
      assert matches[..j + 1][..j] == matches[..j];
    }
    assert matches[..|matches|] == matches;
  }

  /** The line loop of `_load_gitignore`: strip each line and keep it unless it
      is blank or a comment. */
  method PatternsOfLines(lines: seq<string>) returns (patterns: seq<string>)
    ensures patterns == KeepPatterns(lines)
  {
    patterns := [];
    for i := 0 to |lines|
      invariant patterns == KeepPatterns(lines[..i])
    {
      var line := Strip(lines[i]);
      if IsPatternLine(line) {
        patterns := patterns + [line];
      }
      assert lines[..i + 1][..i] == lines[..i];
    }
    assert lines[..|lines|] == lines;
  }

  /** The `for pattern in patterns` loop of `_should_exclude_path`: does one of
      the patterns exclude `rel`? */
  method MatchPatterns(patterns: seq<string>, rel: seq<string>) returns (hit: bool)
    ensures hit == AnyPatternExcludes(patterns, rel)
  {
    for p := 0 to |patterns|
      invariant forall q :: 0 <= q < p ==> !PatternExcludes(patterns[q], rel)
    {
      if PatternExcludes(patterns[p], rel) {
        return true;
      }
    }
    return false;
  }

  // ---------------------------------------------------------------------------
  // The parser object

  class MarkdownParser {
    const respectGitignore: bool
    var excludeDirs: set<string>
    /** Cache of loaded `.gitignore` patterns per directory. */
    var gitignorePatterns: map<Path, seq<string>>
    /** The file system the parser reads. */
    const disk: Entry

    /** Every cached entry holds what the directory's `.gitignore` says. */
    ghost predicate Valid()
      reads this
    {
      forall d :: d in gitignorePatterns ==> gitignorePatterns[d] == GitignoreAt(disk, d)
    }

    constructor(respectGitignore: bool, additionalExcludes: set<string>, useDefaultExcludes: bool, disk: Entry)
      ensures Valid()
      ensures this.respectGitignore == respectGitignore && this.disk == disk
      ensures excludeDirs == ExcludeDirsFor(useDefaultExcludes, additionalExcludes)
      ensures gitignorePatterns == map[]
    {
      this.respectGitignore := respectGitignore;
      this.disk := disk;
      if useDefaultExcludes {
        excludeDirs := DefaultExcludeDirs;
      } else {
        excludeDirs := {};
      }
      if additionalExcludes != {} {
        excludeDirs := excludeDirs + additionalExcludes;
      }
      gitignorePatterns := map[];
    }

    /** `_load_gitignore(directory)`. */
    method LoadGitignore(directory: Path) returns (patterns: seq<string>)
      ensures patterns == GitignoreAt(disk, directory)
    {
      patterns := [];
      match At(disk, Child(directory, ".gitignore")) {
        case Some(File(_, content)) =>
          patterns := PatternsOfLines(SplitLines(ReadText(content)));
        case _ =>
      }
    }

    /** `_should_exclude_path(path, base)`, filling the `.gitignore` cache on the way. */
    method ShouldExcludePath(path: Path, base: Path) returns (excluded: bool)
      requires Valid()
      modifies this`gitignorePatterns
      ensures Valid()
      ensures excluded == Excluded(excludeDirs, respectGitignore, disk, path, base)
    {
      var rel := RelativeTo(path, base);
      if rel.None? {
        return false;
      }
      var parts := rel.value;
      var named := AnyExcludedName(parts, excludeDirs);
      if named {
        return true;
      }
      if respectGitignore {
        excluded := GitignoreWalk(path, base);
        GitignoreWalkIff(disk, path, base);
        return;
      }
      return false;
    }

    /** The upward walk of `_should_exclude_path` over the `.gitignore` files
        from the path's start directory up to `base`. */
    method GitignoreWalk(path: Path, base: Path) returns (excluded: bool)
      requires Valid()
      modifies this`gitignorePatterns
      ensures Valid()
      ensures excluded == WalkUp(GitignoreHits(disk, path), base, GitignoreStart(disk, path))
    {
      var current := if IsDirAt(disk, path) then path else Parent(path);
      ghost var start := current;
      ghost var hits := GitignoreHits(disk, path);
      while !PathLt(current, base)
        invariant Valid()
        invariant IsPrefix(current.parts, path.parts)
        invariant WalkUp(hits, base, start) == WalkUp(hits, base, current)
        decreases |current.parts|
      {
        var hit := GitignoreAtExcludes(path, current);
        assert hit == hits(|current.parts|);
        if hit {
          return true;
        }
        if current == base {
          break;
        }
        current := Parent(current);
      }
      return false;
    }

    /** One step of the upward walk: the `.gitignore` of `current` (loaded into
        the cache on first use) is tried against `path`. */
    method GitignoreAtExcludes(path: Path, current: Path) returns (hit: bool)
      requires Valid() && IsPrefix(current.parts, path.parts)
      modifies this`gitignorePatterns
      ensures Valid()
      ensures hit == GitignoreExcludesAt(disk, path, |current.parts|)
    {
      if current !in gitignorePatterns {
        var loaded := LoadGitignore(current);
        gitignorePatterns := gitignorePatterns[current := loaded];
      }
      var patterns := gitignorePatterns[current];
      var checkPath := path.parts[|current.parts|..];
      assert Path(path.parts[..|current.parts|]) == current;
      hit := false;
      if patterns != [] {
        hit := MatchPatterns(patterns, checkPath);
      }
    }

    /** `scan_directory(dir_path)` over the entry `d` found at `dirPath`,
        returning what it appends to `md_files`. */
    method ScanDirectory(directory: Path, dirPath: Path, d: Entry) returns (found: seq<Path>)
      requires Valid() && d.Dir?
      modifies this`gitignorePatterns
      ensures Valid()
      ensures found == Walk(ExclusionTest(excludeDirs, respectGitignore, disk, directory), dirPath, d, |d.children|)
      decreases d, 1
    {
      found := [];
      for i := 0 to |d.children|
        invariant Valid()
        invariant found == Walk(ExclusionTest(excludeDirs, respectGitignore, disk, directory), dirPath, d, i)
      {
        var piece := ScanItem(directory, dirPath, d, i);
        found := found + piece;
      }
    }

    /** The body of `scan_directory`'s loop for the entry `d.children[i]`. */
    method ScanItem(directory: Path, dirPath: Path, d: Entry, i: nat) returns (piece: seq<Path>)
      requires Valid() && d.Dir? && i < |d.children|
      modifies this`gitignorePatterns
      ensures Valid()
      ensures piece == WalkItem(ExclusionTest(excludeDirs, respectGitignore, disk, directory), dirPath, d, i)
      decreases d, 0
    {
      var item := d.children[i];
      var p := Child(dirPath, item.name);
      piece := [];
      var skip := ShouldExcludePath(p, directory);
      if !skip {
        if item.File? && IsMarkdownName(item.name) {
          piece := [p];
        } else if item.Dir? {
          piece := ScanDirectory(directory, p, item);
        }
      }
    }

    /** `find_markdown_files(directory)`. */
    method FindMarkdownFiles(directory: Path) returns (files: seq<Path>)
      requires Valid()
      modifies this`gitignorePatterns
      ensures Valid()
      ensures files == MarkdownFiles(excludeDirs, respectGitignore, disk, directory)
    {
      files := [];
      var entry := At(disk, directory);
      if entry.Some? && entry.value.Dir? {
        var found := ScanDirectory(directory, directory, entry.value);
        files := SortPaths(found);
      }
    }

    /** `extract_links(file_path)`. */
    method ExtractLinks(filePath: Path) returns (links: seq<Link>)
      ensures links == ExtractedLinks(disk, filePath)
    {
      links := [];
      var entry := At(disk, filePath);
      if entry.Some? && entry.value.File? {
        var lines := Split(ReadText(entry.value.content), '\n');
        for i := 0 to |lines|
          invariant links == LinesLinks(filePath, lines, i)
        {
          var lineLinks := LinksOfLine(filePath, i + 1, lines[i]);
          links := links + lineLinks;
        }
      }
    }
  }
}
