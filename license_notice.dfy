/** The line-sequence logic of the script that keeps one license-notice
    block at the head of a source file. A file is the sequence of its lines,
    each with its trailing newline, as `readlines()` returns them; reading and
    writing the file is outside the model. */
module LicenseNotice {
  import opened Text

  datatype Option<T> = None | Some(value: T)

  // ----------------------------------------------------------------------
  // Configuration
  // ----------------------------------------------------------------------

  /** The two lines of the notice text. */
  const NoticeFirstLine: string := "This file is licensed under the GNU GPL v3."
  const NoticeSecondLine: string := "Copyright (C) 2026 Guanyuming He."

  /** The notice text: both lines, each ended by a newline. */
  const NoticeText: string := NoticeFirstLine + "\n" + NoticeSecondLine + "\n"

  /** The marker that identifies a notice line. It is written out on its own
      rather than derived from the notice text, so that it stays fixed. */
  const Marker: string := "This file is licensed under the GNU GPL v3"

  /** Extensions, lower-cased, by comment style. */
  const CExts: set<string> := {".c", ".cpp", ".h", ".hpp"}
  const ScriptExts: set<string> := {".sh", ".bash", ".py"}
  const TexExts: set<string> := {".tex"}

  /** How many leading lines the detector looks at by default. */
  const ScanWindow: int := 5

  /** A line that carries the notice marker. */
  predicate HasMarker(line: string) {
    Contains(line, Marker)
  }

  /** The marker is the opening of the notice's first line. */
  lemma MarkerOpensNotice()
    ensures NoticeFirstLine == Marker + "."
    ensures StartsWith(NoticeFirstLine, Marker)
  {
  }

  /** Neither notice line holds a line boundary. */
  lemma NoticeLinesAreSingle()
    ensures IsSingleLine(NoticeFirstLine) && IsSingleLine(NoticeSecondLine)
  {
    FirstLineIsPrintable();
    PrintableIsSingleLine(NoticeFirstLine);
    SecondLineIsPrintable();
    PrintableIsSingleLine(NoticeSecondLine);
  }

  lemma FirstLineIsPrintable()
    ensures IsPrintableAscii(NoticeFirstLine)
  {
    assert IsPrintableAscii(NoticeFirstLine);
  }

  lemma SecondLineIsPrintable()
    ensures IsPrintableAscii(NoticeSecondLine)
  {
    assert IsPrintableAscii(NoticeSecondLine);
  }

  /** Splitting the notice text into lines gives exactly its two lines. */
  lemma NoticeTextLines()
    ensures SplitLines(NoticeText) == [NoticeFirstLine, NoticeSecondLine]
  {
    NoticeLinesAreSingle();
    assert NoticeText == NoticeFirstLine + "\n" + (NoticeSecondLine + "\n");
    SplitLinesCons(NoticeFirstLine, NoticeSecondLine + "\n");
    assert NoticeSecondLine + "\n" == NoticeSecondLine + "\n" + "";
    SplitLinesCons(NoticeSecondLine, "");
  }

  /** Whatever comment prefix is used, the first notice line carries the
      marker, the second is not blank and the terminator is blank and carries
      no marker: the block is what detection and removal look for. */
  lemma NoticeBlockIsRecognised(prefix: string)
    ensures HasMarker(prefix + NoticeFirstLine + "\n")
    ensures !IsBlank(prefix + NoticeFirstLine + "\n")
    ensures !IsBlank(prefix + NoticeSecondLine + "\n")
    ensures IsBlank("\n") && !HasMarker("\n")
  {
    MarkerOpensNotice();
    assert prefix + NoticeFirstLine + "\n" == prefix + Marker + ".\n";
    ContainsInfix(prefix, Marker, ".\n");
    var first := prefix + NoticeFirstLine + "\n";
    assert first[|prefix|] == NoticeFirstLine[0] == 'T';
    assert !IsWhitespace(first[|prefix|]);
    var second := prefix + NoticeSecondLine + "\n";
    assert second[|prefix|] == NoticeSecondLine[0] == 'C';
    assert !IsWhitespace(second[|prefix|]);
    if HasMarker("\n") {
      ContainsIsNoLonger("\n", Marker);
    }
  }

  // ----------------------------------------------------------------------
  // Detection
  // ----------------------------------------------------------------------

  /** The index of the first of the leading `end` lines that carries the
      marker, or -1 when none of them does. */
  function FirstNotice(lines: seq<string>, end: int): (r: int)
    ensures r == -1 || (0 <= r < |lines| && r < end && HasMarker(lines[r]))
    ensures r != -1 ==> forall j :: 0 <= j < r ==> !HasMarker(lines[j])
    ensures r == -1 <==> forall j :: 0 <= j < |lines| && j < end ==> !HasMarker(lines[j])
    decreases |lines|
  {
    if |lines| == 0 || end <= 0 then -1
    else if HasMarker(lines[0]) then 0
    else
      var k := FirstNotice(lines[1..], end - 1);
      if k == -1 then -1 else k + 1
  }

  /** Reads up to `end` lines from the top of the file and stops at the
      first one that carries the marker. Past the last line `readline()`
      yields the empty string. */
  method HasFileNotice(lines: seq<string>, end: int) returns (ln: int)
    ensures ln == FirstNotice(lines, end)
  {
    var k := 0;
    while k < end
      invariant 0 <= k && (k <= end || k == 0)
      invariant forall j :: 0 <= j < k && j < |lines| ==> !HasMarker(lines[j])
    {
      var line := if k < |lines| then lines[k] else "";
      if HasMarker(line) {
        if k >= |lines| {
          ContainsIsNoLonger(line, Marker);
        }
        return k;
      }
      k := k + 1;
    }
    return -1;
  }

  // ----------------------------------------------------------------------
  // Insertion
  // ----------------------------------------------------------------------

  /** The requested insertion line clamped into `[0, n]`. */
  function InsertionIndex(insertLine: int, n: nat): (i: nat)
    ensures i <= n
    ensures 0 <= insertLine <= n ==> i == insertLine
    ensures insertLine < 0 ==> i == 0
    ensures insertLine > n ==> i == n
  {
    var bounded := if insertLine < n then insertLine else n;
    if bounded > 0 then bounded else 0
  }

  /** Each line of the notice text, comment-prefixed and newline-ended. */
  function NoticeLines(prefix: string): (block: seq<string>)
    ensures block == [prefix + NoticeFirstLine + "\n", prefix + NoticeSecondLine + "\n"]
  {
    NoticeTextLines();
    var split := SplitLines(NoticeText);
    seq(|split|, k requires 0 <= k < |split| => prefix + split[k] + "\n")
  }

  /** Every line but the last ends with a newline, as in what `readlines()`
      returns. This alone does not make the lines survive a write and a read
      back: `ReadBackShape` adds what else is needed. */
  predicate LinesTerminated(lines: seq<string>) {
    forall j :: 0 <= j < |lines| - 1 ==> EndsWithNewline(lines[j])
  }

  // ----------------------------------------------------------------------
  // Writing lines out and reading them back, in text mode
  // ----------------------------------------------------------------------

  /** The text `writelines` produces: the lines one after another, with no
      separator added. */
  function WriteLines(lines: seq<string>): (text: string)
    ensures lines != [] ==> lines[0] <= text
    decreases |lines|
  {
    if lines == [] then [] else lines[0] + WriteLines(lines[1..])
  }

  /** The length of the first line of a non-empty text, as `readlines()`
      cuts it: up to and including the first newline, or the whole text. */
  function LineLength(text: string): (n: nat)
    requires text != []
    ensures 1 <= n <= |text|
    ensures forall k :: 0 <= k < n - 1 ==> text[k] != '\n'
    ensures n == |text| || text[n - 1] == '\n'
    decreases |text|
  {
    if text[0] == '\n' || |text| == 1 then 1 else 1 + LineLength(text[1..])
  }

  /** The lines `readlines()` returns for a text: each runs through its
      newline, and a last line without one is kept as it is. */
  function ReadLines(text: string): (lines: seq<string>)
    ensures |lines| <= |text|
    decreases |text|
  {
    if text == [] then [] else
      var n := LineLength(text);
      [text[..n]] + ReadLines(text[n..])
  }

  /** One line as `readlines()` returns it: not empty, and a newline can only
      be its last character. */
  predicate LineShape(x: string) {
    x != [] && forall k :: 0 <= k < |x| - 1 ==> x[k] != '\n'
  }

  /** The lines of a file as `readlines()` returns them: every line has that
      shape and every line but the last ends with a newline. */
  predicate ReadBackShape(lines: seq<string>) {
    LinesTerminated(lines) && forall j :: 0 <= j < |lines| ==> LineShape(lines[j])
  }

  /** A line of that shape in front of lines of that shape keeps the shape,
      if it ends with a newline whenever more lines follow. */
  lemma ConsKeepsReadBackShape(x: string, rest: seq<string>)
    requires LineShape(x) && ReadBackShape(rest)
    requires rest != [] ==> EndsWithNewline(x)
    ensures ReadBackShape([x] + rest)
  {
    var lines := [x] + rest;
    assert forall j :: 1 <= j < |lines| ==> lines[j] == rest[j - 1];
  }

  /** Whatever the text, `readlines()` gives lines of that shape, and writing
      them out gives back the text. */
  lemma {:induction false} ReadLinesHasShape(text: string)
    ensures ReadBackShape(ReadLines(text))
    ensures WriteLines(ReadLines(text)) == text
    decreases |text|
  {
    if text != [] {
      var n := LineLength(text);
      var rest := ReadLines(text[n..]);
      ReadLinesHasShape(text[n..]);
      assert ReadLines(text) == [text[..n]] + rest;
      assert rest != [] ==> text[n..] != [];
      ConsKeepsReadBackShape(text[..n], rest);
      assert WriteLines(ReadLines(text)) == text[..n] + WriteLines(rest);
      assert text == text[..n] + text[n..];
    }
  }

  /** The first line of `x + t` is `x` itself when `x` is a line ending with
      a newline, or the whole text. */
  lemma LineLengthOfLine(x: string, t: string)
    requires LineShape(x)
    requires EndsWithNewline(x) || t == []
    ensures LineLength(x + t) == |x|
  {
    var text := x + t;
    assert forall k :: 0 <= k < |x| ==> text[k] == x[k];
  }

  /** Lines of that shape are exactly the ones that survive being written
      out and read back. */
  lemma {:induction false} ReadBackRoundTrip(lines: seq<string>)
    requires ReadBackShape(lines)
    ensures ReadLines(WriteLines(lines)) == lines
    decreases |lines|
  {
    if lines != [] {
      var rest := lines[1..];
      assert ReadBackShape(rest) by {
        forall j | 0 <= j < |rest| ensures LineShape(rest[j]) {
          assert rest[j] == lines[j + 1];
        }
        forall j | 0 <= j < |rest| - 1 ensures EndsWithNewline(rest[j]) {
          assert rest[j] == lines[j + 1];
        }
      }
      ReadBackRoundTrip(rest);
      var text := WriteLines(lines);
      assert text == lines[0] + WriteLines(rest);
      assert |lines| > 1 ==> EndsWithNewline(lines[0]);
      assert |lines| == 1 ==> WriteLines(rest) == [];
      LineLengthOfLine(lines[0], WriteLines(rest));
      assert text[..|lines[0]|] == lines[0];
      assert text[|lines[0]|..] == WriteLines(rest);
    }
  }

  /** The script's splice, as written: the prefixed notice lines and one
      terminating empty line go in before line `insertLine`, clamped to the
      file. Nothing ensures that the line above the splice ends with a
      newline. */
  function InsertNoticeAsWritten(lines: seq<string>, prefix: string, insertLine: int): (r: seq<string>)
    ensures var i := InsertionIndex(insertLine, |lines|);
      && |r| == |lines| + 3
      && r[..i] == lines[..i]
      && r[i + 3..] == lines[i..]
      && r[i] == prefix + NoticeFirstLine + "\n"
      && r[i + 1] == prefix + NoticeSecondLine + "\n"
      && r[i + 2] == "\n"
  {
    var i := InsertionIndex(insertLine, |lines|);
    lines[..i] + NoticeLines(prefix) + ["\n"] + lines[i..]
  }

  /** The file with the line just above position `i` ended by a newline, if
      it lacked one (in a file read by `readlines()` only the last line can). */
  function TerminateBefore(lines: seq<string>, i: nat): (t: seq<string>)
    requires i <= |lines|
    ensures |t| == |lines|
    ensures i > 0 ==> EndsWithNewline(t[i - 1])
    ensures forall j :: 0 <= j < |lines| && j != i - 1 ==> t[j] == lines[j]
    ensures i > 0 ==> t[i - 1] == lines[i - 1] || t[i - 1] == lines[i - 1] + "\n"
    ensures (i == 0 || EndsWithNewline(lines[i - 1])) ==> t == lines
  {
    if i > 0 && !EndsWithNewline(lines[i - 1]) then lines[i - 1 := lines[i - 1] + "\n"] else lines
  }

  /** The splice with the line above it terminated first, so that the notice
      starts a line of its own: the file's lines are kept apart from the
      notice once the result is written out and read back. */
  function InsertNotice(lines: seq<string>, prefix: string, insertLine: int): (r: seq<string>)
    ensures var i := InsertionIndex(insertLine, |lines|);
      && |r| == |lines| + 3
      && r[..i] == TerminateBefore(lines, i)[..i]
      && r[i + 3..] == lines[i..]
      && r[i] == prefix + NoticeFirstLine + "\n"
      && r[i + 1] == prefix + NoticeSecondLine + "\n"
      && r[i + 2] == "\n"
    ensures LinesTerminated(lines) ==> LinesTerminated(r)
  {
    var i := InsertionIndex(insertLine, |lines|);
    var t := TerminateBefore(lines, i);
    SpliceKeepsLinesTerminated(lines, prefix, insertLine);
    assert t[i..] == lines[i..];
    InsertNoticeAsWritten(t, prefix, insertLine)
  }

  lemma NewlineEnds(x: string)
    ensures EndsWithNewline(x + "\n")
  {
  }

  /** Terminating the line above the splice point, then splicing, keeps
      every interior line newline-ended. */
  lemma SpliceKeepsLinesTerminated(lines: seq<string>, prefix: string, insertLine: int)
    ensures var i := InsertionIndex(insertLine, |lines|);
      LinesTerminated(lines) ==>
      LinesTerminated(InsertNoticeAsWritten(TerminateBefore(lines, i), prefix, insertLine))
  {
    var i := InsertionIndex(insertLine, |lines|);
    var t := TerminateBefore(lines, i);
    var r := InsertNoticeAsWritten(t, prefix, insertLine);
    if LinesTerminated(lines) {
      forall j | 0 <= j < |r| - 1
        ensures EndsWithNewline(r[j])
      {
        if j < i {
          assert r[j] == r[..i][j] == t[..i][j] == t[j];
          assert j < i - 1 ==> t[j] == lines[j];
        } else if j >= i + 3 {
          assert r[j] == r[i + 3..][j - i - 3] == t[i..][j - i - 3] == t[j - 3];
          assert t[j - 3] == lines[j - 3];
        } else if j == i {
          NewlineEnds(prefix + NoticeFirstLine);
        } else if j == i + 1 {
          NewlineEnds(prefix + NoticeSecondLine);
        }
      }
    }
  }

  // ----------------------------------------------------------------------
  // Removal
  // ----------------------------------------------------------------------

  /** A run of lines `[from, to)` that removal drops. */
  datatype Span = Span(from: nat, to: nat)

  function Min(a: nat, b: nat): nat {
    if a <= b then a else b
  }

  /** The first line at or after `from` that carries the marker, or `|lines|`. */
  function NextMarker(lines: seq<string>, from: nat): (m: nat)
    requires from <= |lines|
    ensures from <= m <= |lines|
    ensures m < |lines| ==> HasMarker(lines[m])
    ensures forall j :: from <= j < m ==> !HasMarker(lines[j])
    decreases |lines| - from
  {
    if from == |lines| || HasMarker(lines[from]) then from else NextMarker(lines, from + 1)
  }

  /** The first blank line at or after `from`, or `|lines|`. */
  function NextBlank(lines: seq<string>, from: nat): (b: nat)
    requires from <= |lines|
    ensures from <= b <= |lines|
    ensures b < |lines| ==> IsBlank(lines[b])
    ensures forall j :: from <= j < b ==> !IsBlank(lines[j])
    decreases |lines| - from
  {
    if from == |lines| || IsBlank(lines[from]) then from else NextBlank(lines, from + 1)
  }

  /** No line in `[lo, hi)` carries the marker. */
  ghost predicate NoMarkerIn(lines: seq<string>, lo: nat, hi: nat)
    requires hi <= |lines|
  {
    forall j :: lo <= j < hi ==> !HasMarker(lines[j])
  }

  /** No line in `[lo, hi)` is blank. */
  ghost predicate NoBlankIn(lines: seq<string>, lo: nat, hi: nat)
    requires hi <= |lines|
  {
    forall j :: lo <= j < hi ==> !IsBlank(lines[j])
  }

  /** `sp` is the notice block that removal starting at line `s` finds: it
      opens at the first marker line at or after `s` and closes with the first
      blank line after that marker line, or runs to the end of the file when
      there is no such blank line. */
  ghost predicate IsNoticeSpan(lines: seq<string>, s: nat, sp: Span) {
    && s <= sp.from < sp.to <= |lines|
    && HasMarker(lines[sp.from])
    && NoMarkerIn(lines, s, sp.from)
    && ((sp.from < sp.to - 1 && IsBlank(lines[sp.to - 1]) && NoBlankIn(lines, sp.from + 1, sp.to - 1))
        || (sp.to == |lines| && NoBlankIn(lines, sp.from + 1, |lines|)))
  }

  /** The block that removal from line `start` drops, if any. */
  function NoticeSpan(lines: seq<string>, start: nat): (sp: Option<Span>)
    ensures sp.None? <==> forall j :: Min(start, |lines|) <= j < |lines| ==> !HasMarker(lines[j])
    ensures sp.Some? ==> IsNoticeSpan(lines, Min(start, |lines|), sp.value)
  {
    var m := NextMarker(lines, Min(start, |lines|));
    if m == |lines| then None
    else
      var b := NextBlank(lines, m + 1);
      Some(Span(m, if b < |lines| then b + 1 else |lines|))
  }

  /** A span with the defining properties is the one `NoticeSpan` finds. */
  lemma NoticeSpanIsUnique(lines: seq<string>, start: nat, sp: Span)
    requires IsNoticeSpan(lines, Min(start, |lines|), sp)
    ensures NoticeSpan(lines, start) == Some(sp)
  {
    var m := NextMarker(lines, Min(start, |lines|));
    assert m == sp.from;
    var b := NextBlank(lines, m + 1);
    if sp.from < sp.to - 1 && IsBlank(lines[sp.to - 1]) {
      assert b == sp.to - 1;
    } else {
      assert b == |lines|;
    }
  }

  /** The file after removing the first notice block found from line `start`. */
  function NoticeRemoved(lines: seq<string>, start: nat): (r: seq<string>)
    ensures var s := Min(start, |lines|); s <= |r| && r[..s] == lines[..s]
    ensures |r| <= |lines|
    ensures multiset(r) <= multiset(lines)
    ensures r == lines <==> forall j :: Min(start, |lines|) <= j < |lines| ==> !HasMarker(lines[j])
  {
    match NoticeSpan(lines, start)
    case None => lines
    case Some(sp) =>
      assert lines == lines[..sp.from] + lines[sp.from..sp.to] + lines[sp.to..];
      lines[..sp.from] + lines[sp.to..]
  }

  /** Removal cuts out one contiguous run of lines and keeps the rest in
      order. */
  lemma NoticeRemovedKeepsOrder(lines: seq<string>, start: nat)
    ensures exists a: nat, b: nat :: a <= b <= |lines| && NoticeRemoved(lines, start) == lines[..a] + lines[b..]
  {
    match NoticeSpan(lines, start)
    case None =>
      assert NoticeRemoved(lines, start) == lines[..|lines|] + lines[|lines|..];
    case Some(sp) =>
      assert NoticeRemoved(lines, start) == lines[..sp.from] + lines[sp.to..];
  }

  /** Removal keeps the shape `readlines()` returns: if every line but the
      last ended with a newline, the same holds afterwards. */
  lemma NoticeRemovedKeepsLinesTerminated(lines: seq<string>, start: nat)
    requires LinesTerminated(lines)
    ensures LinesTerminated(NoticeRemoved(lines, start))
  {
    match NoticeSpan(lines, start)
    case None =>
    case Some(sp) =>
      var r := NoticeRemoved(lines, start);
      assert r == lines[..sp.from] + lines[sp.to..];
      forall j | 0 <= j < |r| - 1
        ensures EndsWithNewline(r[j])
      {
        if j >= sp.from {
          assert r[j] == lines[j - sp.from + sp.to];
        } else {
          assert r[j] == lines[j];
        }
      }
  }

  /** Removal keeps the lines in the shape `readlines()` returns, so the
      rewritten file reads back as the lines removal produced. */
  lemma NoticeRemovedKeepsReadBackShape(lines: seq<string>, start: nat)
    requires ReadBackShape(lines)
    ensures ReadBackShape(NoticeRemoved(lines, start))
  {
    NoticeRemovedKeepsLinesTerminated(lines, start);
    match NoticeSpan(lines, start)
    case None =>
    case Some(sp) =>
      var r := NoticeRemoved(lines, start);
      assert r == lines[..sp.from] + lines[sp.to..];
      forall j | 0 <= j < |r|
        ensures LineShape(r[j])
      {
        if j >= sp.from {
          assert r[j] == lines[j - sp.from + sp.to];
        } else {
          assert r[j] == lines[j];
        }
      }
  }

  /** Where the removal loop stands: looking for the marker, dropping the
      notice up to its terminating blank line, or copying the rest. */
  datatype ScanState = Scanning | Skipping | Copying

  /** What the removal loop knows after reading the lines before `i`, having
      started at line `s`: while scanning, `out` is everything read and no
      marker has been met; while skipping, `from` is the first marker line
      and `out` stops before it; while copying, `blank` is also the first
      blank line after `from` and `out` resumes after it. */
  ghost predicate ScanInv(lines: seq<string>, s: nat, i: nat, state: ScanState,
                          from: nat, blank: nat, out: seq<string>)
    requires s <= i <= |lines|
  {
    match state
    case Scanning =>
      out == lines[..i] && i <= NextMarker(lines, s)
    case Skipping =>
      && s <= from < i && from == NextMarker(lines, s)
      && out == lines[..from] && i <= NextBlank(lines, from + 1)
    case Copying =>
      && s <= from < blank < i && from == NextMarker(lines, s)
      && blank == NextBlank(lines, from + 1)
      && out == lines[..from] + lines[blank + 1..i]
  }

  /** Copies the lines before `start`, then runs the three-state scan over the
      rest, dropping the first notice block it meets. */
  method RemoveExistingNotice(lines: seq<string>, start: nat) returns (out: seq<string>)
    ensures out == NoticeRemoved(lines, start)
  {
    var s := Min(start, |lines|);
    out := lines[..s];
    var state := Scanning;
    ghost var from := s;
    ghost var blank := s;
    var i := s;
    while i < |lines|
      invariant s <= i <= |lines|
      invariant ScanInv(lines, s, i, state, from, blank, out)
    {
      match state {
        case Scanning =>
          ScanningStep(lines, s, i, from, blank, out);
          if HasMarker(lines[i]) {
            state, from := Skipping, i;
          } else {
            out := out + [lines[i]];
          }
        case Skipping =>
          SkippingStep(lines, s, i, from, blank, out);
          if IsBlank(lines[i]) {
            state, blank := Copying, i;
          }
        case Copying =>
          CopyingStep(lines, s, i, from, blank, out);
          out := out + [lines[i]];
      }
      i := i + 1;
    }
    ScanDone(lines, start, state, from, blank, out);
  }

  /** One step while scanning: a marker line starts skipping, any other line
      is copied. */
  lemma ScanningStep(lines: seq<string>, s: nat, i: nat, from: nat, blank: nat, out: seq<string>)
    requires s <= i < |lines| && ScanInv(lines, s, i, Scanning, from, blank, out)
    ensures HasMarker(lines[i]) ==> ScanInv(lines, s, i + 1, Skipping, i, blank, out)
    ensures !HasMarker(lines[i]) ==> ScanInv(lines, s, i + 1, Scanning, from, blank, out + [lines[i]])
  {
    assert lines[..i + 1] == lines[..i] + [lines[i]];
  }

  /** One step while skipping: the first blank line ends the notice, any
      other line is dropped. */
  lemma SkippingStep(lines: seq<string>, s: nat, i: nat, from: nat, blank: nat, out: seq<string>)
    requires s <= i < |lines| && ScanInv(lines, s, i, Skipping, from, blank, out)
    ensures IsBlank(lines[i]) ==> ScanInv(lines, s, i + 1, Copying, from, i, out)
    ensures !IsBlank(lines[i]) ==> ScanInv(lines, s, i + 1, Skipping, from, blank, out)
  {
    assert lines[i + 1..i + 1] == [];
    assert out + [] == out;
  }

  /** One step while copying: the line is copied. */
  lemma CopyingStep(lines: seq<string>, s: nat, i: nat, from: nat, blank: nat, out: seq<string>)
    requires s <= i < |lines| && ScanInv(lines, s, i, Copying, from, blank, out)
    ensures ScanInv(lines, s, i + 1, Copying, from, blank, out + [lines[i]])
  {
    assert lines[blank + 1..i + 1] == lines[blank + 1..i] + [lines[i]];
    assert out + [lines[i]] == lines[..from] + (lines[blank + 1..i] + [lines[i]]);
  }

  /** Once every line is read, `out` is the file with the notice removed. */
  lemma ScanDone(lines: seq<string>, start: nat, state: ScanState, from: nat, blank: nat, out: seq<string>)
    requires ScanInv(lines, Min(start, |lines|), |lines|, state, from, blank, out)
    ensures out == NoticeRemoved(lines, start)
  {
    var s := Min(start, |lines|);
    match state
    case Scanning =>
      assert NextMarker(lines, s) == |lines|;
      assert out == lines;
    case Skipping =>
      assert NextBlank(lines, from + 1) == |lines|;
      assert out == lines[..from] + lines[|lines|..];
      CutBySpan(lines, start, Span(from, |lines|));
    case Copying =>
      assert blank < |lines|;
      assert out == lines[..from] + lines[blank + 1..];
      CutBySpan(lines, start, Span(from, blank + 1));
  }

  /** Removal along the span the scan finds. */
  lemma CutBySpan(lines: seq<string>, start: nat, sp: Span)
    requires NoticeSpan(lines, start) == Some(sp)
    ensures NoticeRemoved(lines, start) == lines[..sp.from] + lines[sp.to..]
  {
  }

  // ----------------------------------------------------------------------
  // Classification and orchestration
  // ----------------------------------------------------------------------

  /** Comment prefix and insertion line for a file. */
  datatype Placement = Placement(prefix: string, line: int)

  /** What `readline()` returns first: the first line, or "" for an empty file. */
  function FirstLine(lines: seq<string>): string {
    if |lines| > 0 then lines[0] else ""
  }

  /** Chooses the comment style from the file's suffix, compared
      lower-cased, and puts the notice after a shebang line in scripts. */
  function Classify(suffix: string, lines: seq<string>): (p: Placement)
    ensures p.line == 0 || p.line == 1
    ensures p.line == 1 <==> Lower(suffix) in ScriptExts && StartsWith(FirstLine(lines), "#!")
    ensures p.prefix == "# " <==> Lower(suffix) in ScriptExts
    ensures p.prefix == "% " <==> Lower(suffix) in TexExts
    ensures p.prefix == "// " <==> Lower(suffix) !in ScriptExts + TexExts
  {
    var ext := Lower(suffix);
    if ext in CExts then Placement("// ", 0)
    else if ext in ScriptExts then Placement("# ", if StartsWith(FirstLine(lines), "#!") then 1 else 0)
    else if ext in TexExts then Placement("% ", 0)
    else Placement("// ", 0)
  }

  /** The file once a notice found in the scan window has been removed. */
  function WithoutOldNotice(lines: seq<string>): (r: seq<string>)
    ensures multiset(r) <= multiset(lines)
    ensures FirstNotice(lines, ScanWindow) == -1 ==> r == lines
  {
    var found := FirstNotice(lines, ScanWindow);
    if found != -1 then NoticeRemoved(lines, found) else lines
  }

  /** The script's per-file update, as written: drop the old notice if one
      is detected, classify what is left, splice in a fresh notice. */
  function NoticeUpdatedAsWritten(suffix: string, lines: seq<string>): seq<string> {
    var base := WithoutOldNotice(lines);
    var p := Classify(suffix, base);
    InsertNoticeAsWritten(base, p.prefix, p.line)
  }

  /** The per-file update with the corrected splice, which ends the line
      above the notice with a newline first. */
  function NoticeUpdated(suffix: string, lines: seq<string>): seq<string> {
    var base := WithoutOldNotice(lines);
    var p := Classify(suffix, base);
    InsertNotice(base, p.prefix, p.line)
  }

  /** Detects, removes if found, classifies the file as it is after removal,
      and splices the notice in, as the script does. */
  method DecideNotice(suffix: string, lines: seq<string>) returns (updated: seq<string>)
    ensures updated == NoticeUpdatedAsWritten(suffix, lines)
  {
    var current := lines;
    var found := HasFileNotice(current, ScanWindow);
    if found != -1 {
      current := RemoveExistingNotice(current, found);
    }
    var p := Classify(suffix, current);
    updated := InsertNoticeAsWritten(current, p.prefix, p.line);
  }

  // ----------------------------------------------------------------------
  // Entry point
  // ----------------------------------------------------------------------

  /** The value `main` returns and the path arguments it goes on to
      process. */
  datatype Outcome = Outcome(code: int, processed: seq<string>)

  /** Help or no arguments: usage and success; outside a work tree, or in a
      work tree with pending changes: failure before any file is touched;
      otherwise every argument is processed. */
  function MainOutcome(args: seq<string>, inWorkTree: bool, clean: bool): (o: Outcome)
    ensures o.processed != [] ==> inWorkTree && clean && "--help" !in args
    ensures o.processed == [] || o.processed == args
    ensures o.code == 0 <==> "--help" in args || |args| == 0 || (inWorkTree && clean)
    ensures o.code != 0 ==> o.code == -1 && o.processed == []
    ensures o.code == 0 && "--help" !in args ==> o.processed == args
  {
    if "--help" in args || |args| == 0 then Outcome(0, [])
    else if !inWorkTree then Outcome(-1, [])
    else if !clean then Outcome(-1, [])
    else Outcome(0, args)
  }
}
