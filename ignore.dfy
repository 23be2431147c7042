/**
 * The `.docignore` handling of the scanner: reading the pattern list from
 * the ignore file and asking whether an entry name is ignored.
 */
module Ignore {
  import opened Wrappers
  import Glob

  /** What opening `<root>/.docignore` finds on disk. */
  datatype IgnoreFile =
    | Missing              // os.path.exists is false: no patterns
    | Unreadable           // exists, but opening or decoding it raises
    | Text(content: string)

  /** Python's `str.isspace`: ASCII whitespace, the separators 0x1C-0x1F, and Unicode White_Space. */
  predicate IsSpace(c: char)
  {
    var n := c as int;
    n == 0x20 || 0x09 <= n <= 0x0D || 0x1C <= n <= 0x1F || n == 0x85 || n == 0xA0 || n == 0x1680
    || 0x2000 <= n <= 0x200A || n == 0x2028 || n == 0x2029 || n == 0x202F || n == 0x205F || n == 0x3000
  }

  /** The characters at which Python's text-mode file iteration ends a line. */
  predicate IsLineBreak(c: char)
  {
    c == '\n' || c == '\r'
  }

  predicate AllSpace(s: string)
  {
    forall k :: 0 <= k < |s| ==> IsSpace(s[k])
  }

  /** The end of the run of whitespace in `s` that starts at `i`. */
  function SkipSpace(s: string, i: int): (j: int)
    requires 0 <= i <= |s|
    ensures i <= j <= |s|
    ensures forall k :: i <= k < j ==> IsSpace(s[k])
    ensures j == |s| || !IsSpace(s[j])
    decreases |s| - i
  {
    if i < |s| && IsSpace(s[i]) then SkipSpace(s, i + 1) else i
  }

  /** The start of the run of whitespace in `s` that ends just before `j`. */
  function SkipSpaceBack(s: string, j: int): (i: int)
    requires 0 <= j <= |s|
    ensures 0 <= i <= j
    ensures forall k :: i <= k < j ==> IsSpace(s[k])
    ensures i == 0 || !IsSpace(s[i - 1])
  {
    if j > 0 && IsSpace(s[j - 1]) then SkipSpaceBack(s, j - 1) else j
  }

  /** `s.lstrip()`: drop leading whitespace. */
  function TrimStart(s: string): (r: string)
    ensures |r| <= |s| && r == s[|s| - |r|..]
    ensures AllSpace(s[..|s| - |r|])
    ensures r == [] || !IsSpace(r[0])
  {
    s[SkipSpace(s, 0)..]
  }

  /** `s.rstrip()`: drop trailing whitespace. */
  function TrimEnd(s: string): (r: string)
    ensures |r| <= |s| && r == s[..|r|]
    ensures AllSpace(s[|r|..])
    ensures r == [] || !IsSpace(r[|r| - 1])
  {
    s[..SkipSpaceBack(s, |s|)]
  }

  /** `s.strip()`: what is left starts and ends with something other than whitespace. */
  function Strip(s: string): (r: string)
    ensures r == [] || (!IsSpace(r[0]) && !IsSpace(r[|r| - 1]))
  {
    TrimEnd(TrimStart(s))
  }

  /** `r` is the slice of `s` starting at `i`, and everything of `s` around it is whitespace. */
  ghost predicate SliceWithin(s: string, r: string, i: int)
  {
    && 0 <= i <= |s| - |r|
    && s[i..i + |r|] == r
    && (forall k :: 0 <= k < i ==> IsSpace(s[k]))
    && (forall k :: i + |r| <= k < |s| ==> IsSpace(s[k]))
  }

  /** Stripping leaves a piece of the line with no whitespace at either end, and only whitespace was removed. */
  lemma StripIsTrimmedSlice(s: string)
    ensures var r := Strip(s);
      && (r == [] || (!IsSpace(r[0]) && !IsSpace(r[|r| - 1])))
      && exists i :: SliceWithin(s, r, i)
  {
    var t := TrimStart(s);
    var r := TrimEnd(t);
    var i := |s| - |t|;
    assert s[i..i + |r|] == t[..|r|];
    forall k | i + |r| <= k < |s| ensures IsSpace(s[k]) {
      assert s[k] == t[k - i];
    }
    assert SliceWithin(s, r, i);
  }

  /**
   * The text cut at every line break. Python's universal-newline lines differ
   * from these only by empty pieces (after `\r\n` or a final break), and those
   * never survive the blank-line rule of the ignore file.
   */
  function Lines(text: string): (r: seq<string>)
    ensures |r| >= 1
    ensures forall i, k :: 0 <= i < |r| && 0 <= k < |r[i]| ==> !IsLineBreak(r[i][k])
  {
    if text == [] then [""]
    else
      var rest := Lines(text[1..]);
      if IsLineBreak(text[0]) then [""] + rest
      else [[text[0]] + rest[0]] + rest[1..]
  }

  /** Text without a line break is a single line; with one final break it is that line and an empty piece. */
  lemma {:induction false} LinesOfOneLine(s: string)
    requires forall k :: 0 <= k < |s| ==> !IsLineBreak(s[k])
    ensures Lines(s) == [s]
    ensures Lines(s + "\n") == [s, ""]
  {
    if s != [] {
      LinesOfOneLine(s[1..]);
      assert (s + "\n")[1..] == s[1..] + "\n";
      assert [s[0]] + s[1..] == s;
    } else {
      assert "\n"[1..] == "";
    }
  }

  /** A line break ends the line before it: the text after it is cut on its own. */
  lemma {:induction false} LinesOfBreak(a: string, c: char, b: string)
    requires forall k :: 0 <= k < |a| ==> !IsLineBreak(a[k])
    requires IsLineBreak(c)
    ensures Lines(a + [c] + b) == [a] + Lines(b)
    decreases |a|
  {
    var t := a + [c] + b;
    if a == [] {
      assert t[1..] == b;
    } else {
      assert t[1..] == a[1..] + [c] + b;
      LinesOfBreak(a[1..], c, b);
      assert [a[0]] + a[1..] == a;
    }
  }

  /** A stripped line is kept as a pattern unless it is blank or a `#` comment. */
  predicate Keeps(stripped: string)
  {
    stripped != [] && stripped[0] != '#'
  }

  /** What every entry of the pattern list looks like: non-blank, not a comment, no surrounding whitespace. */
  predicate IsPattern(p: string)
  {
    Keeps(p) && !IsSpace(p[0]) && !IsSpace(p[|p| - 1])
  }

  /** The pattern list of an ignore file, given its lines in file order. */
  function Patterns(lines: seq<string>): (r: seq<string>)
    ensures |r| <= |lines|
    ensures forall p :: p in r ==> IsPattern(p)
  {
    if lines == [] then []
    else
      var last := Strip(lines[|lines| - 1]);
      Patterns(lines[..|lines| - 1]) + (if Keeps(last) then [last] else [])
  }

  /** Pattern extraction goes line by line, keeping file order: it distributes over concatenation. */
  lemma {:induction false} PatternsAppend(a: seq<string>, b: seq<string>)
    ensures Patterns(a + b) == Patterns(a) + Patterns(b)
    decreases |b|
  {
    if b == [] {
      assert a + b == a;
    } else {
      var b' := b[..|b| - 1];
      assert (a + b)[..|a + b| - 1] == a + b';
      assert (a + b)[|a + b| - 1] == b[|b| - 1];
      PatternsAppend(a, b');
    }
  }

  /** A single line contributes its stripped text exactly when that is neither blank nor a comment. */
  lemma PatternsOfOneLine(line: string)
    ensures Patterns([line]) == if Keeps(Strip(line)) then [Strip(line)] else []
  {
    assert [line][..0] == [];
  }

  /** A pattern is its own stripped form. */
  lemma {:induction false} StripOfPattern(p: string)
    requires IsPattern(p)
    ensures Strip(p) == p
  {
    assert TrimStart(p) == p;
  }

  /** An ignore file whose only line is a pattern, without a final newline, yields exactly that pattern. */
  lemma {:induction false} SingleLineIgnoreFile(p: string)
    requires forall k :: 0 <= k < |p| ==> !IsLineBreak(p[k])
    requires IsPattern(p)
    ensures Patterns(Lines(p)) == [p]
  {
    LinesOfOneLine(p);
    StripOfPattern(p);
    PatternsOfOneLine(p);
  }

  /** The same file with a final newline yields the same single pattern. */
  lemma {:induction false} SingleLineIgnoreFileWithNewline(p: string)
    requires forall k :: 0 <= k < |p| ==> !IsLineBreak(p[k])
    requires IsPattern(p)
    ensures Patterns(Lines(p + "\n")) == [p]
  {
    LinesOfOneLine(p);
    SingleLineIgnoreFile(p);
    PatternsOfOneLine("");
    PatternsAppend([p], [""]);
    assert [p] + [""] == [p, ""];
  }

  /**
   * `load_ignore_patterns`: read `.docignore` line by line, strip each line and
   * append it unless it is blank or a comment. A missing file gives no patterns;
   * a file that cannot be read makes the call fail.
   */
  method LoadIgnorePatterns(file: IgnoreFile) returns (r: Result<seq<string>, IgnoreFile>)
    ensures file.Missing? ==> r == Ok([])
    ensures file.Unreadable? ==> r == Err(file)
    ensures file.Text? ==> r == Ok(Patterns(Lines(file.content)))
  {
    match file
    case Missing =>
      r := Ok([]);
    case Unreadable =>
      r := Err(file);
    case Text(content) =>
      var patterns := CollectPatterns(Lines(content));
      r := Ok(patterns);
  }

  /** The loop of `load_ignore_patterns` over the lines of the file. */
  method CollectPatterns(lines: seq<string>) returns (patterns: seq<string>)
    ensures patterns == Patterns(lines)
  {
    patterns := [];
    var i := 0;
    while i < |lines|
      invariant 0 <= i <= |lines|
      invariant patterns == Patterns(lines[..i])
    {
      var line := Strip(lines[i]);
      if Keeps(line) {
        patterns := patterns + [line];
      }
      PatternsStep(lines, i);
      i := i + 1;
    }
    assert lines[..i] == lines;
  }

  /** One more line either adds its stripped text or nothing. */
  lemma PatternsStep(lines: seq<string>, i: int)
    requires 0 <= i < |lines|
    ensures Patterns(lines[..i + 1]) == Patterns(lines[..i]) + (if Keeps(Strip(lines[i])) then [Strip(lines[i])] else [])
  {
    assert lines[..i + 1][..i] == lines[..i];
  }

  /** `is_ignored`: does some pattern match the whole entry name? */
  function IsIgnored(name: string, patterns: seq<string>): (r: bool)
    ensures r <==> exists i :: 0 <= i < |patterns| && Glob.Match(patterns[i], name)
  {
    if patterns == [] then false
    else Glob.Match(patterns[0], name) || IsIgnored(name, patterns[1..])
  }

  /** Only the set of patterns matters: neither their order nor repetitions change the answer. */
  lemma IgnoredIndependentOfOrder(name: string, p: seq<string>, q: seq<string>)
    requires forall x :: x in p <==> x in q
    ensures IsIgnored(name, p) == IsIgnored(name, q)
  {
    if IsIgnored(name, p) {
      var i :| 0 <= i < |p| && Glob.Match(p[i], name);
      assert p[i] in q;
    }
    if IsIgnored(name, q) {
      var i :| 0 <= i < |q| && Glob.Match(q[i], name);
      assert q[i] in p;
    }
  }
}
