/**
 * The two `os.path` computations the scanner relies on, for POSIX paths:
 * `os.path.join` of two parts, and the lowercased extension
 * `os.path.splitext(filename)[1].lower()`.
 */
module Paths {

  /** `posixpath.join(a, b)`: an absolute `b` replaces `a`; otherwise a `/` is inserted unless `a` is empty or already ends in one. */
  function Join(a: string, b: string): string
  {
    if |b| > 0 && b[0] == '/' then b
    else if a == [] || a[|a| - 1] == '/' then a + b
    else a + "/" + b
  }

  /**
   * What joining means: an absolute `b` is the result; otherwise the result
   * starts with `a`, ends with `b`, and has at most one `/` between them,
   * exactly one when `a` is non-empty and does not already end in `/`.
   */
  lemma JoinMeaning(a: string, b: string)
    ensures var r := Join(a, b);
      if |b| > 0 && b[0] == '/' then r == b
      else
        && |a| + |b| <= |r| <= |a| + |b| + 1
        && r[..|a|] == a && r[|r| - |b|..] == b
        && (|r| == |a| + |b| + 1 <==> a != [] && a[|a| - 1] != '/')
        && (|r| == |a| + |b| + 1 ==> r[|a|] == '/')
  {
  }

  /** A single path component as a directory listing returns it: non-empty and free of `/`. */
  predicate PlainName(n: string)
  {
    n != [] && forall k :: 0 <= k < |n| ==> n[k] != '/'
  }

  /** `a` with one `/` added unless it already ends in one: what `Join` puts before a relative name. */
  function WithSlash(a: string): (r: string)
    requires a != []
    ensures |r| > 0 && r[|r| - 1] == '/'
  {
    if a[|a| - 1] == '/' then a else a + "/"
  }

  /** Joining a non-empty directory path and a plain name is the path with its slash, then the name. */
  lemma JoinPlain(a: string, b: string)
    requires a != [] && PlainName(b)
    ensures Join(a, b) == WithSlash(a) + b
  {
  }

  /**
   * A string that is a slash-terminated prefix followed by a plain name splits
   * in exactly one way: the name is everything after the last `/`.
   */
  lemma {:induction false} SplitAtSlash(x: string, n: string, y: string, m: string)
    requires x != [] && x[|x| - 1] == '/' && y != [] && y[|y| - 1] == '/'
    requires PlainName(n) && PlainName(m)
    requires x + n == y + m
    ensures x == y && n == m
  {
    var s := x + n;
    LastIndexOfAt(x + n, '/', |x| - 1);
    LastIndexOfAt(y + m, '/', |y| - 1);
    assert x == s[..|x|] && y == s[..|y|];
    assert n == s[|x|..] && m == s[|y|..];
  }

  /** Index of the last occurrence of `c` in `s`, or -1 (Python's `str.rfind`). */
  function LastIndexOf(s: string, c: char): (r: int)
    ensures -1 <= r < |s|
    ensures r >= 0 ==> s[r] == c
    ensures forall k :: r < k < |s| ==> s[k] != c
  {
    if s == [] then -1
    else if s[|s| - 1] == c then |s| - 1
    else LastIndexOf(s[..|s| - 1], c)
  }

  /** The last occurrence is pinned down by a `c` with none after it. */
  lemma LastIndexOfAt(s: string, c: char, i: int)
    requires 0 <= i < |s| && s[i] == c
    requires forall k :: i < k < |s| ==> s[k] != c
    ensures LastIndexOf(s, c) == i
  {
  }

  /** No occurrence at all gives -1. */
  lemma LastIndexOfNone(s: string, c: char)
    requires forall k :: 0 <= k < |s| ==> s[k] != c
    ensures LastIndexOf(s, c) == -1
  {
  }

  predicate AllDots(s: string)
  {
    forall k :: 0 <= k < |s| ==> s[k] == '.'
  }

  /**
   * The extension part of `posixpath.splitext(p)`: from the last `.` of the
   * last path component to the end, unless that component has nothing but dots
   * before its last dot (so `.bashrc` and `..` have no extension).
   */
  function SplitExt(p: string): string
  {
    var sep := LastIndexOf(p, '/');
    var dot := LastIndexOf(p, '.');
    if dot > sep && !AllDots(p[sep + 1..dot]) then p[dot..] else ""
  }

  /** ASCII lower-casing of one character. */
  function LowerChar(c: char): char
  {
    if 'A' <= c <= 'Z' then (c as int + 32) as char else c
  }

  /** `str.lower`, restricted to ASCII letters. */
  function Lower(s: string): string
  {
    seq(|s|, k requires 0 <= k < |s| => LowerChar(s[k]))
  }

  /** The `extension` column the scanner stores for a file name (a name holds no `/`). */
  function Extension(filename: string): string
  {
    Lower(SplitExt(filename))
  }

  /**
   * What the extension of a file name is: a non-empty result is a lowercased
   * dot-led suffix of the name with no further dot, preceded by something that
   * is not all dots; the result is empty exactly when the name has no dot, or
   * only dots before its last dot.
   */
  lemma ExtensionMeaning(filename: string)
    requires forall k :: 0 <= k < |filename| ==> filename[k] != '/'
    ensures var r := Extension(filename);
      && (r != [] ==> && |r| <= |filename|
                      && r[0] == '.'
                      && r == Lower(filename[|filename| - |r|..])
                      && (forall k :: 1 <= k < |r| ==> r[k] != '.')
                      && !AllDots(filename[..|filename| - |r|]))
      && (r == [] <==> forall j :: 0 <= j < |filename| && filename[j] == '.'
                                  && (forall k :: j < k < |filename| ==> filename[k] != '.')
                                  ==> AllDots(filename[..j]))
  {
    assert LastIndexOf(filename, '/') == -1;
    var dot := LastIndexOf(filename, '.');
    if dot >= 0 {
      assert filename[-1 + 1..dot] == filename[..dot];
    }
  }

  /** With no `/`, a last dot that follows something other than dots starts the extension. */
  lemma SplitExtAtLastDot(p: string, dot: int)
    requires forall k :: 0 <= k < |p| ==> p[k] != '/'
    requires 0 <= dot < |p| && p[dot] == '.'
    requires forall k :: dot < k < |p| ==> p[k] != '.'
    requires !AllDots(p[..dot])
    ensures SplitExt(p) == p[dot..]
  {
    LastIndexOfNone(p, '/');
    LastIndexOfAt(p, '.', dot);
    assert p[-1 + 1..dot] == p[..dot];
  }

  /** Worked cases: a dotfile, a double extension, a trailing dot, upper case. */
  lemma ExtensionOfDotfile()
    ensures Extension(".bashrc") == ""
  {
    LastIndexOfAt(".bashrc", '.', 0);
  }

  lemma ExtensionOfDoubleExtension()
    ensures Extension("a.tar.gz") == ".gz"
  {
    var n := "a.tar.gz";
    assert n[..5][0] == 'a';
    SplitExtAtLastDot(n, 5);
    assert n[5..] == ".gz";
    assert Lower(".gz") == ".gz";
  }

  lemma ExtensionOfTrailingDot()
    ensures Extension("f.") == "."
  {
    var n := "f.";
    assert n[..1][0] == 'f';
    SplitExtAtLastDot(n, 1);
    assert n[1..] == ".";
    assert Lower(".") == ".";
  }

  lemma ExtensionIsLowercased()
    ensures Extension("Photo.JPG") == Extension("photo.jpg") == ".jpg"
  {
    var n := "photo.jpg";
    assert n[..5][0] == 'p';
    SplitExtAtLastDot(n, 5);
    assert n[5..] == ".jpg";
    assert Lower(".jpg") == ".jpg";
    LowerOfPhoto();
    ExtensionIgnoresCase("Photo.JPG");
  }

  lemma LowerOfPhoto()
    ensures Lower("Photo.JPG") == "photo.jpg"
  {
    var n, l := "Photo.JPG", "photo.jpg";
    forall k | 0 <= k < |n| ensures Lower(n)[k] == l[k] {
      assert LowerChar(n[k]) == l[k];
    }
  }

  /** Lower-casing leaves `.` and `/` where they are and makes no other character one of them. */
  lemma LowerKeepsSeparators(p: string, c: char)
    requires c == '.' || c == '/'
    ensures forall k :: 0 <= k < |p| ==> (Lower(p)[k] == c <==> p[k] == c)
    ensures LastIndexOf(Lower(p), c) == LastIndexOf(p, c)
  {
    var i := LastIndexOf(p, c);
    if i >= 0 {
      LastIndexOfAt(Lower(p), c, i);
    } else {
      LastIndexOfNone(Lower(p), c);
    }
  }

  /** Lower-casing a slice is slicing the lowered string, and it neither makes nor unmakes an all-dots run. */
  lemma LowerSlice(p: string, i: int, j: int)
    requires 0 <= i <= j <= |p|
    ensures Lower(p)[i..j] == Lower(p[i..j])
    ensures AllDots(Lower(p[i..j])) <==> AllDots(p[i..j])
  {
    var s := p[i..j];
    assert forall k :: 0 <= k < |s| ==> (Lower(s)[k] == '.' <==> s[k] == '.');
  }

  /** Splitting the lowered name yields the lowered suffix. */
  lemma SplitExtOfLower(p: string)
    ensures SplitExt(Lower(p)) == Lower(SplitExt(p))
  {
    var q := Lower(p);
    LowerKeepsSeparators(p, '.');
    LowerKeepsSeparators(p, '/');
    var sep := LastIndexOf(p, '/');
    var dot := LastIndexOf(p, '.');
    if dot > sep {
      LowerSlice(p, sep + 1, dot);
      LowerSlice(p, dot, |p|);
      assert p[dot..|p|] == p[dot..] && q[dot..|p|] == q[dot..];
    }
  }

  /**
   * The stored extension does not depend on the case of the name:
   * `Photo.JPG` and `photo.jpg` get the same `extension` column.
   */
  lemma ExtensionIgnoresCase(p: string)
    ensures Extension(Lower(p)) == Extension(p)
  {
    SplitExtOfLower(p);
    var e := SplitExt(p);
    assert Lower(Lower(e)) == Lower(e);
  }
}
