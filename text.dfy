/** String operations that the license-notice script borrows from Python's `str`:
    substring search (`in`), `startswith`, `strip() == ""`, `lower()` and
    `splitlines()`. Strings are sequences of characters. */
module Text {

  /** `s.startswith(p)`, as a prefix test. */
  predicate StartsWith(s: string, p: string) {
    p <= s
  }

  /** `StartsWith` holds exactly when the first `|p|` characters of `s` are
      `p`. */
  lemma StartsWithIffPrefix(s: string, p: string)
    ensures StartsWith(s, p) <==> |p| <= |s| && s[..|p|] == p
  {
  }

  /** `s` ends with a line feed. */
  predicate EndsWithNewline(s: string) {
    |s| > 0 && s[|s| - 1] == '\n'
  }

  /** `sub` occurs somewhere in `s`, as Python's `sub in s`. */
  predicate Contains(s: string, sub: string)
    decreases |s|
  {
    sub <= s || (|s| > 0 && Contains(s[1..], sub))
  }

  /** `sub` occurs in `s` starting at offset `k`. */
  predicate OccursAt(s: string, sub: string, k: int) {
    0 <= k <= |s| - |sub| && s[k..k + |sub|] == sub
  }

  /** `Contains` is substring search: `sub` occurs in `s` at some offset. */
  lemma {:induction false} ContainsIffOccurs(s: string, sub: string)
    ensures Contains(s, sub) <==> exists k :: OccursAt(s, sub, k)
    decreases |s|
  {
    if sub <= s {
      assert OccursAt(s, sub, 0);
    } else if |s| > 0 {
      ContainsIffOccurs(s[1..], sub);
      if Contains(s[1..], sub) {
        var k :| OccursAt(s[1..], sub, k);
        assert s[k + 1..k + 1 + |sub|] == s[1..][k..k + |sub|];
        assert OccursAt(s, sub, k + 1);
      }
      if exists k :: OccursAt(s, sub, k) {
        var k :| OccursAt(s, sub, k);
        assert s[1..][k - 1..k - 1 + |sub|] == s[k..k + |sub|];
        assert OccursAt(s[1..], sub, k - 1);
      }
    }
  }

  /** A string contains every string that occurs in it at some offset. */
  lemma {:induction false} ContainsInfix(p: string, sub: string, t: string)
    ensures Contains(p + sub + t, sub)
  {
    if p == [] {
      assert p + sub + t == sub + t;
    } else {
      assert (p + sub + t)[1..] == p[1..] + sub + t;
      ContainsInfix(p[1..], sub, t);
    }
  }

  /** Nothing longer than `s` occurs in `s`. */
  lemma {:induction false} ContainsIsNoLonger(s: string, sub: string)
    requires Contains(s, sub)
    ensures |sub| <= |s|
    decreases |s|
  {
    if !(sub <= s) {
      ContainsIsNoLonger(s[1..], sub);
    }
  }

  /** A character appended to `s` creates no new occurrence of a string that
      does not end with that character. */
  lemma {:induction false} ContainsDropLast(s: string, c: char, sub: string)
    requires Contains(s + [c], sub)
    requires |sub| == 0 || sub[|sub| - 1] != c
    ensures Contains(s, sub)
    decreases |s|
  {
    var t := s + [c];
    if sub <= t {
      assert sub <= s by {
        assert |sub| < |t|;
        assert sub == t[..|sub|] == s[..|sub|];
      }
    } else {
      assert t[1..] == s[1..] + [c];
      ContainsDropLast(s[1..], c, sub);
    }
  }

  /** The characters for which Python's `str.isspace()` holds: the ASCII
      controls TAB..CR and FS..US, SPACE, NEL, NO-BREAK SPACE and the Unicode
      separators. `str.strip()` with no argument removes exactly these. */
  predicate IsWhitespace(c: char) {
    var n := c as int;
    n == 0x20 || 0x09 <= n <= 0x0D || 0x1C <= n <= 0x1F || n == 0x85 || n == 0xA0
    || n == 0x1680 || 0x2000 <= n <= 0x200A || n == 0x2028 || n == 0x2029
    || n == 0x202F || n == 0x205F || n == 0x3000
  }

  /** `s.strip() == ""`: stripping leaves nothing exactly when every
      character is whitespace. */
  predicate IsBlank(s: string) {
    forall i :: 0 <= i < |s| ==> IsWhitespace(s[i])
  }

  /** `s` with its leading whitespace removed, as `s.lstrip()`. */
  function TrimStart(s: string): (r: string)
    ensures |r| <= |s| && r == s[|s| - |r|..]
    ensures forall i :: 0 <= i < |s| - |r| ==> IsWhitespace(s[i])
    ensures r == [] || !IsWhitespace(r[0])
    decreases |s|
  {
    if s != [] && IsWhitespace(s[0]) then TrimStart(s[1..]) else s
  }

  /** `s` with its trailing whitespace removed, as `s.rstrip()`. */
  function TrimEnd(s: string): (r: string)
    ensures |r| <= |s| && r == s[..|r|]
    ensures forall i :: |r| <= i < |s| ==> IsWhitespace(s[i])
    ensures r == [] || !IsWhitespace(r[|r| - 1])
    decreases |s|
  {
    if s != [] && IsWhitespace(s[|s| - 1]) then TrimEnd(s[..|s| - 1]) else s
  }

  /** `s.strip()`: whitespace removed from both ends. It leaves nothing
      exactly when the whole string is whitespace. */
  function Strip(s: string): (r: string)
    ensures r == [] <==> IsBlank(s)
  {
    var t := TrimStart(s);
    assert t != [] ==> s[|s| - |t|] == t[0];
    TrimEnd(t)
  }

  /** Lower-cases one ASCII letter and leaves every other character alone. */
  function LowerChar(c: char): (d: char)
    ensures 'A' <= c <= 'Z' ==> d as int == c as int + 32
    ensures !('A' <= c <= 'Z') ==> d == c
    ensures !('A' <= d <= 'Z')
  {
    if 'A' <= c <= 'Z' then (c as int + 32) as char else c
  }

  /** `s.lower()` restricted to the ASCII letters. */
  function Lower(s: string): (r: string)
    ensures |r| == |s|
    ensures forall i :: 0 <= i < |s| ==> r[i] == LowerChar(s[i])
  {
    seq(|s|, i requires 0 <= i < |s| => LowerChar(s[i]))
  }

  /** Lower-casing twice is lower-casing once. */
  lemma LowerIdempotent(s: string)
    ensures Lower(Lower(s)) == Lower(s)
  {
    var once := Lower(s);
    var twice := Lower(once);
    forall i | 0 <= i < |s|
      ensures twice[i] == once[i]
    {
      assert !('A' <= once[i] <= 'Z');
    }
  }

  /** No ASCII capital letter occurs in `s`. */
  predicate HasNoUpper(s: string) {
    forall i :: 0 <= i < |s| ==> !('A' <= s[i] <= 'Z')
  }

  /** Lower-casing leaves a string without capitals as it is. */
  lemma LowerKeepsLowerCase(s: string)
    requires HasNoUpper(s)
    ensures Lower(s) == s
  {
  }

  /** The line boundaries of Python's `str.splitlines()`: LF, VT, FF, CR,
      FS, GS, RS, NEL, LINE SEPARATOR and PARAGRAPH SEPARATOR (CR LF counts
      as one boundary). */
  predicate IsLineBoundary(c: char) {
    var n := c as int;
    0x0A <= n <= 0x0D || 0x1C <= n <= 0x1E || n == 0x85 || n == 0x2028 || n == 0x2029
  }

  /** No line boundary anywhere in `s`. */
  predicate IsSingleLine(s: string) {
    forall i :: 0 <= i < |s| ==> !IsLineBoundary(s[i])
  }

  /** Every character is printable ASCII, from SPACE to TILDE. */
  predicate IsPrintableAscii(s: string) {
    forall i :: 0 <= i < |s| ==> ' ' <= s[i] <= '~'
  }

  /** Printable ASCII text holds no line boundary. */
  lemma PrintableIsSingleLine(s: string)
    requires IsPrintableAscii(s)
    ensures IsSingleLine(s)
  {
  }

  /** Splits off the first line of a non-empty string: the text before the
      first boundary, and what follows that boundary. */
  function BreakLine(s: string): (r: (string, string))
    requires s != []
    ensures |r.1| < |s|
    ensures IsSingleLine(r.0) && r.0 <= s
    ensures var n := |r.0|; n < |s| ==>
      && IsLineBoundary(s[n])
      && r.1 == if s[n] == '\r' && n + 1 < |s| && s[n + 1] == '\n' then s[n + 2..] else s[n + 1..]
    ensures |r.0| == |s| ==> r.1 == []
    decreases |s|
  {
    if IsLineBoundary(s[0]) then
      if s[0] == '\r' && |s| > 1 && s[1] == '\n' then ([], s[2..]) else ([], s[1..])
    else if |s| == 1 then
      (s, [])
    else
      var (line, rest) := BreakLine(s[1..]);
      ([s[0]] + line, rest)
  }

  /** `s.splitlines()`: the lines of `s` without their boundaries; a final
      boundary does not open an empty last line. */
  function SplitLines(s: string): (lines: seq<string>)
    ensures forall k :: 0 <= k < |lines| ==> IsSingleLine(lines[k])
    ensures |lines| <= |s|
    ensures s == [] <==> lines == []
    decreases |s|
  {
    if s == [] then []
    else
      var (line, rest) := BreakLine(s);
      [line] + SplitLines(rest)
  }

  /** A single line followed by LF splits off as exactly that line. */
  lemma {:induction false} BreakLineAtNewline(line: string, rest: string)
    requires IsSingleLine(line)
    ensures BreakLine(line + "\n" + rest) == (line, rest)
    decreases |line|
  {
    var s := line + "\n" + rest;
    if line == [] {
      assert s[0] == '\n' && s[1..] == rest;
    } else {
      assert s[0] == line[0] && !IsLineBoundary(s[0]);
      assert s[1..] == line[1..] + "\n" + rest;
      BreakLineAtNewline(line[1..], rest);
      assert [line[0]] + line[1..] == line;
    }
  }

  /** Splitting text that is `line` plus LF plus `rest` yields `line` and
      then the lines of `rest`. */
  lemma SplitLinesCons(line: string, rest: string)
    requires IsSingleLine(line)
    ensures SplitLines(line + "\n" + rest) == [line] + SplitLines(rest)
  {
    BreakLineAtNewline(line, rest);
  }
}
