/** `pathlib.PurePosixPath` as the link-graph engine uses it: absolute paths as
    lists of components, joining, `relative_to`, `parent`, `name`, `suffix`,
    `stem`, and `resolve()` reduced to its lexical part (no symbolic links). */
module Paths {
  import opened Strings
  import opened Sorting
  import opened Wrappers

  /** An absolute path: the components below `/`. */
  datatype Path = Path(parts: seq<string>)

  /** What PurePath keeps as a component: non-empty, no `/`, not `.`. */
  predicate IsComponent(c: string) {
    c != "" && c != "." && '/' !in c
  }

  predicate AllComponents(parts: seq<string>) {
    forall i :: 0 <= i < |parts| ==> IsComponent(parts[i])
  }

  predicate IsPrefix(a: seq<string>, b: seq<string>) {
    |a| <= |b| && b[..|a|] == a
  }

  /** `p.parent`; the root is its own parent. */
  function Parent(p: Path): (q: Path)
    ensures IsPrefix(q.parts, p.parts)
    ensures |p.parts| > 0 ==> |q.parts| == |p.parts| - 1
  {
    if |p.parts| == 0 then p else Path(p.parts[..|p.parts| - 1])
  }

  /** `p.name`: the last component, or `""` for the root. */
  function Name(p: Path): string {
    if |p.parts| == 0 then "" else p.parts[|p.parts| - 1]
  }

  function Child(p: Path, name: string): Path {
    Path(p.parts + [name])
  }

  /** `p.relative_to(base)`: lexical, `None` where Python raises `ValueError`. */
  function RelativeTo(p: Path, base: Path): (r: Option<seq<string>>)
    ensures r.Some? <==> IsPrefix(base.parts, p.parts)
    ensures r.Some? ==> base.parts + r.value == p.parts
  {
    if IsPrefix(base.parts, p.parts) then Some(p.parts[|base.parts|..]) else None
  }

  /** `str(p)` for an absolute path. */
  function Str(p: Path): string {
    "/" + Join(p.parts, "/")
  }

  /** `str(q)` for a relative path `q`; the empty relative path prints as `.`. */
  function RelStr(rel: seq<string>): string {
    if rel == [] then "." else Join(rel, "/")
  }

  /** The components PurePath keeps from a relative path string: `/`-separated,
      with empty and `.` pieces dropped. */
  function ParseParts(s: string): (r: seq<string>)
    ensures AllComponents(r)
  {
    KeepComponents(Split(s, '/'))
  }

  function KeepComponents(pieces: seq<string>): (r: seq<string>)
    requires forall k :: 0 <= k < |pieces| ==> '/' !in pieces[k]
    ensures AllComponents(r)
  {
    if pieces == [] then []
    else if pieces[0] == "" || pieces[0] == "." then KeepComponents(pieces[1..])
    else [pieces[0]] + KeepComponents(pieces[1..])
  }

  /** `p / s` for a string `s` that does not start with `/`. */
  function JoinStr(p: Path, s: string): (q: Path)
    requires !StartsWith(s, "/")
    ensures IsPrefix(p.parts, q.parts)
  {
    Path(p.parts + ParseParts(s))
  }

  /** The lexical part of `resolve()`: each `..` removes the component before it
      (and is dropped at the root). */
  function Normalize(parts: seq<string>): seq<string> {
    if parts == [] then []
    else
      var init := Normalize(parts[..|parts| - 1]);
      if parts[|parts| - 1] == ".." then
        (if init == [] then [] else init[..|init| - 1])
      else init + [parts[|parts| - 1]]
  }

  /** A normalised path holds no `..` and keeps only components it was given. */
  lemma {:induction false} NormalizeNoDotDot(parts: seq<string>)
    ensures ".." !in Normalize(parts)
    ensures forall c :: c in Normalize(parts) ==> c in parts
  {
    if parts != [] {
      NormalizeNoDotDot(parts[..|parts| - 1]);
      var init := Normalize(parts[..|parts| - 1]);
      forall c | c in Normalize(parts)
        ensures c in parts
      {
        if c in init {
          assert c in parts[..|parts| - 1];
        }
      }
    }
  }

  /** Without `..` there is nothing to collapse. */
  lemma {:induction false} NormalizeIdentity(parts: seq<string>)
    requires ".." !in parts
    ensures Normalize(parts) == parts
  {
    if parts != [] {
      NormalizeIdentity(parts[..|parts| - 1]);
      assert parts == parts[..|parts| - 1] + [parts[|parts| - 1]];
    }
  }

  /** Normalising twice is normalising once: resolution is idempotent. */
  lemma NormalizeIdempotent(parts: seq<string>)
    ensures Normalize(Normalize(parts)) == Normalize(parts)
  {
    NormalizeNoDotDot(parts);
    NormalizeIdentity(Normalize(parts));
  }

  /** A `..` removes the component just before it. */
  lemma NormalizeUp(ps: seq<string>, c: string)
    requires c != ".."
    ensures Normalize(ps + [c, ".."]) == Normalize(ps)
  {
    var q := ps + [c, ".."];
    assert q[..|q| - 1] == ps + [c];
    assert (ps + [c])[..|ps|] == ps;
  }

  /** What follows depends only on the normal form of what comes before. */
  lemma {:induction false} NormalizeCongruent(a: seq<string>, b: seq<string>, t: seq<string>)
    requires Normalize(a) == Normalize(b)
    ensures Normalize(a + t) == Normalize(b + t)
  {
    if t == [] {
      assert a + t == a && b + t == b;
    } else {
      var t' := t[..|t| - 1];
      NormalizeCongruent(a, b, t');
      assert (a + t)[..|a + t| - 1] == a + t' && (a + t)[|a + t| - 1] == t[|t| - 1];
      assert (b + t)[..|b + t| - 1] == b + t' && (b + t)[|b + t| - 1] == t[|t| - 1];
    }
  }

  /** A component followed by `..` cancels out wherever the pair occurs. */
  lemma NormalizeCancel(ps: seq<string>, c: string, t: seq<string>)
    requires c != ".."
    ensures Normalize(ps + [c, ".."] + t) == Normalize(ps + t)
  {
    NormalizeUp(ps, c);
    NormalizeCongruent(ps + [c, ".."], ps, t);
  }

  /** Python's `str.rfind(c)` as an option. */
  function LastIndexOf(s: string, c: char): (r: Option<nat>)
    ensures r.Some? ==> r.value < |s| && s[r.value] == c && c !in s[r.value + 1..]
    ensures r.None? ==> c !in s
  {
    if |s| == 0 then None
    else if s[|s| - 1] == c then Some(|s| - 1)
    else
      var r := LastIndexOf(s[..|s| - 1], c);
      assert s == s[..|s| - 1] + [s[|s| - 1]];
      if r.Some? then assert s[r.value + 1..] == s[..|s| - 1][r.value + 1..] + [s[|s| - 1]]; r
      else r
  }

  /** `PurePath.suffix`: from the last `.` on, unless that dot starts or ends the name. */
  function Suffix(name: string): string {
    match LastIndexOf(name, '.')
    case Some(i) => if 0 < i < |name| - 1 then name[i..] else ""
    case None => ""
  }

  /** `PurePath.stem`: the name without its suffix. */
  function Stem(name: string): (r: string)
    ensures r + Suffix(name) == name
  {
    match LastIndexOf(name, '.')
    case Some(i) => if 0 < i < |name| - 1 then name[..i] else name
    case None => name
  }

  /** `find_markdown_files`' test `item.suffix.lower() == '.md'`. */
  predicate IsMarkdownName(name: string) {
    ToLower(Suffix(name)) == ".md"
  }

  /** The suffix test is a case-insensitive `.md` ending on a name with
      something before the dot. */
  lemma MarkdownNameIff(name: string)
    ensures IsMarkdownName(name) <==> |name| >= 4 && ToLower(name[|name| - 3..]) == ".md"
  {
    var li := LastIndexOf(name, '.');
    if |name| >= 4 && ToLower(name[|name| - 3..]) == ".md" {
      var t := name[|name| - 3..];
      assert ToLower(t)[0] == '.' && ToLower(t)[1] == 'm' && ToLower(t)[2] == 'd';
      assert name[|name| - 3] == '.' && name[|name| - 2] != '.' && name[|name| - 1] != '.';
      assert li.Some?;
      assert forall k :: li.value < k < |name| ==> name[k] != '.' by {
        forall k | li.value < k < |name|
          ensures name[k] != '.'
        {
          assert name[k] == name[li.value + 1..][k - li.value - 1];
        }
      }
    }
    if IsMarkdownName(name) {
      assert li.Some?;
      var i := li.value;
      assert 0 < i < |name| - 1;
      assert |ToLower(name[i..])| == 3;
    }
  }

  /** `name.with_suffix(suffix)`. */
  function WithSuffix(name: string, suffix: string): string {
    Stem(name) + suffix
  }

  /** Python's `<` on paths. */
  predicate PathLt(a: Path, b: Path) {
    PartsLt(a.parts, b.parts)
  }

  function PathKey(p: Path): seq<string> {
    p.parts
  }

  /** `sorted(paths)`. */
  function SortPaths(ps: seq<Path>): (r: seq<Path>)
    ensures SortedBy(r, PathKey) && multiset(r) == multiset(ps)
  {
    SortBy(ps, PathKey)
  }
}
