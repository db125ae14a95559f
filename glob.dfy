/** `fnmatch.fnmatch` on POSIX for patterns built from literal characters, `*`
    (any run of characters, `/` included) and `?` (any one character). */
module Glob {

  predicate HasWildcard(pat: string) {
    '*' in pat || '?' in pat
  }

  /** `name` matches the whole of `pat`. */
  predicate Match(name: string, pat: string)
    decreases |name| + |pat|
  {
    if pat == [] then name == []
    else if pat[0] == '*' then Match(name, pat[1..]) || (name != [] && Match(name[1..], pat))
    else if pat[0] == '?' then name != [] && Match(name[1..], pat[1..])
    else name != [] && name[0] == pat[0] && Match(name[1..], pat[1..])
  }

  /** A pattern without wildcards matches exactly itself. */
  lemma {:induction false} LiteralMatch(name: string, pat: string)
    requires !HasWildcard(pat)
    ensures Match(name, pat) <==> name == pat
    decreases |pat|
  {
    if pat != [] && name != [] {
      assert pat[0] != '*' && pat[0] != '?';
      assert !HasWildcard(pat[1..]) by {
        assert forall c :: c in pat[1..] ==> c in pat;
      }
      LiteralMatch(name[1..], pat[1..]);
      assert name == [name[0]] + name[1..] && pat == [pat[0]] + pat[1..];
    }
  }

  /** `*` followed by `pat` matches exactly when some suffix of the name matches `pat`. */
  lemma {:induction false} StarPrefix(name: string, pat: string)
    ensures Match(name, "*" + pat) <==> exists i :: 0 <= i <= |name| && Match(name[i..], pat)
    decreases |name|
  {
    assert ("*" + pat)[1..] == pat;
    assert name[0..] == name;
    if name != [] {
      StarPrefix(name[1..], pat);
      forall i | 1 <= i <= |name|
        ensures name[1..][i - 1..] == name[i..]
      {
      }
      if Match(name, "*" + pat) && !Match(name, pat) {
        var i :| 0 <= i <= |name[1..]| && Match(name[1..][i..], pat);
        assert name[1..][i..] == name[i + 1..];
      }
      if exists i :: 0 <= i <= |name| && Match(name[i..], pat) {
        var i :| 0 <= i <= |name| && Match(name[i..], pat);
        if i > 0 {
          assert Match(name[1..][i - 1..], pat);
        }
      }
    }
  }

  /** `*` matches every name. */
  lemma StarMatchesAll(name: string)
    ensures Match(name, "*")
  {
    StarPrefix(name, "");
    assert "*" + "" == "*";
    assert Match(name[|name|..], "");
  }

  /** `**` + `/` + p, the second form `.gitignore` file patterns are tried in,
      matches exactly the names with a `/` after which the rest matches p. */
  lemma AnyDepthMatch(name: string, pat: string)
    ensures Match(name, "**/" + pat) <==> exists j :: 0 <= j < |name| && name[j] == '/' && Match(name[j + 1..], pat)
  {
    if Match(name, "**/" + pat) {
      AnyDepthSound(name, pat);
    }
    forall j | 0 <= j < |name| && name[j] == '/' && Match(name[j + 1..], pat)
      ensures Match(name, "**/" + pat)
    {
      AnyDepthComplete(name, pat, j);
    }
  }

  /** `/` + p matches exactly the names that start with `/` and go on with a match of p. */
  lemma SlashMatch(name: string, pat: string)
    ensures Match(name, "/" + pat) <==> name != [] && name[0] == '/' && Match(name[1..], pat)
  {
    assert ("/" + pat)[0] == '/' && ("/" + pat)[1..] == pat;
  }

  lemma AnyDepthSound(name: string, pat: string)
    requires Match(name, "**/" + pat)
    ensures exists j :: 0 <= j < |name| && name[j] == '/' && Match(name[j + 1..], pat)
  {
    var slash := "/" + pat;
    var star := "*" + slash;
    assert "**/" + pat == "*" + star;
    StarPrefix(name, star);
    var i :| 0 <= i <= |name| && Match(name[i..], star);
    var rest := name[i..];
    StarPrefix(rest, slash);
    var k :| 0 <= k <= |rest| && Match(rest[k..], slash);
    var tail := name[i + k..];
    assert rest[k..] == tail;
    SlashMatch(tail, pat);
    assert tail[1..] == name[i + k + 1..];
    assert tail[0] == name[i + k];
  }

  lemma AnyDepthComplete(name: string, pat: string, j: nat)
    requires j < |name| && name[j] == '/' && Match(name[j + 1..], pat)
    ensures Match(name, "**/" + pat)
  {
    assert name[j..][1..] == name[j + 1..];
    SlashMatch(name[j..], pat);
    assert "*/" + pat == "*" + ("/" + pat);
    StarPrefix(name, "/" + pat);
    assert Match(name, "*/" + pat);
    assert "**/" + pat == "*" + ("*/" + pat);
    StarPrefix(name, "*/" + pat);
    assert name[0..] == name;
  }
}
