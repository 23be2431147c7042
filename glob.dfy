/**
 * Shell-style wildcard matching as done by Python's `fnmatch.fnmatch` on a
 * POSIX system: the pattern must match the WHOLE name, case-sensitively;
 * `*` matches any run of characters (including `/`, `.` and line breaks),
 * `?` matches exactly one character, and every other character matches
 * itself. A leading `.` gets no special treatment.
 */
module Glob {

  /** Does pattern `pat` match the whole of `name`? (executable matcher) */
  function Match(pat: string, name: string): bool
    decreases |pat| + |name|
  {
    if pat == [] then name == []
    else if pat[0] == '*' then Match(pat[1..], name) || (name != [] && Match(pat, name[1..]))
    else name != [] && (pat[0] == '?' || pat[0] == name[0]) && Match(pat[1..], name[1..])
  }

  /**
   * Reference semantics: the set of names a pattern denotes, read off the
   * pattern one symbol at a time; a `*` may swallow any prefix of the rest.
   */
  ghost predicate Denotes(pat: string, name: string)
    decreases |pat|
  {
    if pat == [] then name == []
    else if pat[0] == '*' then exists k :: 0 <= k <= |name| && Denotes(pat[1..], name[k..])
    else name != [] && (pat[0] == '?' || pat[0] == name[0]) && Denotes(pat[1..], name[1..])
  }

  /** The matcher decides exactly the reference semantics. */
  lemma {:induction false} MatchIffDenotes(pat: string, name: string)
    ensures Match(pat, name) <==> Denotes(pat, name)
    decreases |pat| + |name|
  {
    if pat == [] {
    } else if pat[0] == '*' {
      MatchIffDenotes(pat[1..], name);
      if name != [] {
        MatchIffDenotes(pat, name[1..]);
      }
      if Match(pat, name) {
        if Match(pat[1..], name) {
          assert name[0..] == name;
        } else {
          var k :| 0 <= k <= |name| - 1 && Denotes(pat[1..], name[1..][k..]);
          assert name[1..][k..] == name[k + 1..];
        }
      }
      if Denotes(pat, name) {
        var k :| 0 <= k <= |name| && Denotes(pat[1..], name[k..]);
        if k == 0 {
          assert name[k..] == name;
        } else {
          assert name[1..][k - 1..] == name[k..];
          assert Denotes(pat, name[1..]);
        }
      }
    } else if name != [] {
      MatchIffDenotes(pat[1..], name[1..]);
    }
  }

  /** A pattern without wildcards. */
  predicate IsLiteral(pat: string)
  {
    forall i :: 0 <= i < |pat| ==> pat[i] != '*' && pat[i] != '?'
  }

  /** A literal pattern matches only the identical name. */
  lemma {:induction false} LiteralMatchesItself(pat: string, name: string)
    requires IsLiteral(pat)
    ensures Match(pat, name) <==> pat == name
    decreases |pat|
  {
    if pat != [] && name != [] {
      assert IsLiteral(pat[1..]);
      LiteralMatchesItself(pat[1..], name[1..]);
      if pat[0] == name[0] && pat[1..] == name[1..] {
        assert pat == [pat[0]] + pat[1..] && name == [name[0]] + name[1..];
      }
    }
  }

  /** A lone `*` matches every name, the empty one included. */
  lemma {:induction false} StarMatchesAll(name: string)
    ensures Match("*", name)
    decreases |name|
  {
    if name != [] {
      StarMatchesAll(name[1..]);
    }
  }

  /** `*` followed by a literal suffix (such as `*.log`) matches exactly the names ending in that suffix. */
  lemma {:induction false} StarSuffix(lit: string, name: string)
    requires IsLiteral(lit)
    ensures Match(['*'] + lit, name) <==> |lit| <= |name| && name[|name| - |lit|..] == lit
    decreases |name|
  {
    var pat := ['*'] + lit;
    assert pat[1..] == lit;
    LiteralMatchesItself(lit, name);
    if name != [] {
      StarSuffix(lit, name[1..]);
      if |lit| < |name| {
        assert name[1..][|name[1..]| - |lit|..] == name[|name| - |lit|..];
      }
    }
  }

  /** Without `*`, a match consumes exactly one character per pattern symbol. */
  lemma {:induction false} StarFreeLength(pat: string, name: string)
    requires forall i :: 0 <= i < |pat| ==> pat[i] != '*'
    requires Match(pat, name)
    ensures |name| == |pat|
    decreases |pat|
  {
    if pat != [] {
      StarFreeLength(pat[1..], name[1..]);
    }
  }
}
