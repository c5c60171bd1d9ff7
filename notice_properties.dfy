/** How detection, insertion, removal and classification fit together: an
    inserted notice is found where it was put, removing it restores the file,
    and the per-file update is idempotent. */
module NoticeProperties {
  import opened Text
  import opened LicenseNotice

  /** A notice spliced in below marker-free lines, inside the detection
      window, is detected at the (clamped) line where it was put. */
  lemma InsertThenDetect(lines: seq<string>, prefix: string, insertLine: int, end: int)
    requires InsertionIndex(insertLine, |lines|) < end
    requires forall j :: 0 <= j < InsertionIndex(insertLine, |lines|) ==> !HasMarker(lines[j])
    ensures FirstNotice(InsertNoticeAsWritten(lines, prefix, insertLine), end)
         == InsertionIndex(insertLine, |lines|)
  {
    var i := InsertionIndex(insertLine, |lines|);
    var r := InsertNoticeAsWritten(lines, prefix, insertLine);
    NoticeBlockIsRecognised(prefix);
    assert HasMarker(r[i]);
    forall j | 0 <= j < i
      ensures !HasMarker(r[j])
    {
      assert r[j] == r[..i][j];
      assert lines[j] == lines[..i][j];
    }
  }

  /** Removing from the line where a notice was spliced in gives back the
      file exactly, whatever the file holds and whatever the prefix. */
  lemma InsertThenRemove(lines: seq<string>, prefix: string, insertLine: int)
    ensures NoticeRemoved(InsertNoticeAsWritten(lines, prefix, insertLine), InsertionIndex(insertLine, |lines|))
         == lines
  {
    var i := InsertionIndex(insertLine, |lines|);
    var r := InsertNoticeAsWritten(lines, prefix, insertLine);
    NoticeBlockIsRecognised(prefix);
    assert Min(i, |r|) == i;
    assert HasMarker(r[i]) && !IsBlank(r[i + 1]) && IsBlank(r[i + 2]);
    assert NoBlankIn(r, i + 1, i + 2);
    assert IsNoticeSpan(r, i, Span(i, i + 3));
    NoticeSpanIsUnique(r, i, Span(i, i + 3));
    CutBySpan(r, i, Span(i, i + 3));
    SpliceParts(lines, prefix, insertLine);
  }

  /** Splice, detect, remove: for a file with no marker above the insertion
      point and an insertion point inside the default window, detection finds
      the new notice and removal from there restores the file. */
  lemma RoundTrip(lines: seq<string>, prefix: string, insertLine: int)
    requires InsertionIndex(insertLine, |lines|) < ScanWindow
    requires forall j :: 0 <= j < InsertionIndex(insertLine, |lines|) ==> !HasMarker(lines[j])
    ensures var r := InsertNoticeAsWritten(lines, prefix, insertLine);
      var found := FirstNotice(r, ScanWindow);
      found == InsertionIndex(insertLine, |lines|) && NoticeRemoved(r, found) == lines
  {
    InsertThenDetect(lines, prefix, insertLine, ScanWindow);
    InsertThenRemove(lines, prefix, insertLine);
  }

  /** Ending the line above the splice point with a newline puts no marker
      into a marker-free prefix of the file. */
  lemma TerminateKeepsMarkerFree(lines: seq<string>, i: nat)
    requires i <= |lines|
    requires forall j :: 0 <= j < i ==> !HasMarker(lines[j])
    ensures forall j :: 0 <= j < i ==> !HasMarker(TerminateBefore(lines, i)[j])
  {
    var t := TerminateBefore(lines, i);
    if i > 0 && t[i - 1] != lines[i - 1] {
      assert t[i - 1] == lines[i - 1] + ['\n'];
      if HasMarker(t[i - 1]) {
        ContainsDropLast(lines[i - 1], '\n', Marker);
      }
    }
  }

  /** The round trip with the corrected splice: detection finds the notice
      where it was put, and removal gives back the file with the line above
      the notice terminated, which is the file itself when that line already
      was. */
  lemma CorrectedRoundTrip(lines: seq<string>, prefix: string, insertLine: int)
    requires InsertionIndex(insertLine, |lines|) < ScanWindow
    requires forall j :: 0 <= j < InsertionIndex(insertLine, |lines|) ==> !HasMarker(lines[j])
    ensures var i := InsertionIndex(insertLine, |lines|);
      var r := InsertNotice(lines, prefix, insertLine);
      var found := FirstNotice(r, ScanWindow);
      && found == i
      && NoticeRemoved(r, found) == TerminateBefore(lines, i)
      && ((i == 0 || EndsWithNewline(lines[i - 1])) ==> NoticeRemoved(r, found) == lines)
  {
    var i := InsertionIndex(insertLine, |lines|);
    var t := TerminateBefore(lines, i);
    assert InsertNotice(lines, prefix, insertLine) == InsertNoticeAsWritten(t, prefix, insertLine);
    TerminateKeepsMarkerFree(lines, i);
    RoundTrip(t, prefix, insertLine);
  }

  /** The update leaves the file as classified after removal, with the
      notice block at that classification's line and every other line in
      order. */
  lemma UpdatePlacesNotice(suffix: string, lines: seq<string>)
    ensures var base := WithoutOldNotice(lines);
      var p := Classify(suffix, base);
      var i := InsertionIndex(p.line, |base|);
      var r := NoticeUpdated(suffix, lines);
      && |r| == |base| + 3
      && r[..i] + r[i + 3..] == TerminateBefore(base, i)
      && r[i..i + 3] == NoticeLines(p.prefix) + ["\n"]
      && HasMarker(r[i])
  {
    var base := WithoutOldNotice(lines);
    var p := Classify(suffix, base);
    var i := InsertionIndex(p.line, |base|);
    var t := TerminateBefore(base, i);
    assert InsertNoticeAsWritten(t, p.prefix, p.line) == NoticeUpdated(suffix, lines);
    SpliceParts(t, p.prefix, p.line);
    NoticeBlockIsRecognised(p.prefix);
  }

  /** The splice falls apart into the file and the inserted block. */
  lemma SpliceParts(lines: seq<string>, prefix: string, insertLine: int)
    ensures var i := InsertionIndex(insertLine, |lines|);
      var r := InsertNoticeAsWritten(lines, prefix, insertLine);
      && r[..i] + r[i + 3..] == lines
      && r[i..i + 3] == NoticeLines(prefix) + ["\n"]
  {
    var i := InsertionIndex(insertLine, |lines|);
    var r := InsertNoticeAsWritten(lines, prefix, insertLine);
    assert r[..i] + r[i + 3..] == lines[..i] + lines[i..];
    assert lines[..i] + lines[i..] == lines;
  }

  /** On a file spliced inside the window below marker-free lines, the
      update's removal step takes out exactly the spliced block. */
  lemma RemovalFindsSplice(lines: seq<string>, prefix: string, insertLine: int)
    requires InsertionIndex(insertLine, |lines|) < ScanWindow
    requires forall j :: 0 <= j < InsertionIndex(insertLine, |lines|) ==> !HasMarker(lines[j])
    ensures WithoutOldNotice(InsertNoticeAsWritten(lines, prefix, insertLine)) == lines
  {
    InsertThenDetect(lines, prefix, insertLine, ScanWindow);
    InsertThenRemove(lines, prefix, insertLine);
  }

  /** A script that, once any old notice is gone, opens with a shebang keeps
      the shebang as its first line, with the notice right after it. */
  lemma UpdateKeepsShebangFirst(suffix: string, lines: seq<string>)
    requires Lower(suffix) in ScriptExts
    requires StartsWith(FirstLine(WithoutOldNotice(lines)), "#!")
    ensures var r := NoticeUpdated(suffix, lines);
      StartsWith(r[0], "#!") && StartsWith(r[0], WithoutOldNotice(lines)[0]) && HasMarker(r[1])
  {
    var base := WithoutOldNotice(lines);
    var p := Classify(suffix, base);
    assert p.line == 1 && |base| > 0;
    var t := TerminateBefore(base, 1);
    var r := InsertNoticeAsWritten(t, p.prefix, p.line);
    assert r == NoticeUpdated(suffix, lines);
    NoticeBlockIsRecognised(p.prefix);
    assert r[0] == t[0];
  }

  /** A file that already has, at its classification's line, the notice
      the update would put there, and no marker above it, is left as it is. */
  lemma UpdateFixesPlacedNotice(suffix: string, t: seq<string>)
    requires var i := InsertionIndex(Classify(suffix, t).line, |t|);
      && TerminateBefore(t, i) == t
      && forall j :: 0 <= j < i ==> !HasMarker(t[j])
    ensures var p := Classify(suffix, t);
      var y := InsertNoticeAsWritten(t, p.prefix, p.line);
      NoticeUpdated(suffix, y) == y
  {
    var p := Classify(suffix, t);
    var y := InsertNoticeAsWritten(t, p.prefix, p.line);
    RemovalFindsSplice(t, p.prefix, p.line);
    assert NoticeUpdated(suffix, y) == InsertNotice(t, p.prefix, p.line);
  }

  /** Under the side condition of the idempotence lemmas, the lines above
      the insertion point of a file whose lines all come from the original
      carry no marker: the only such line is a shebang. */
  lemma CleanedHeadIsMarkerFree(suffix: string, lines: seq<string>, base: seq<string>)
    requires forall j :: 0 <= j < |lines| && StartsWith(lines[j], "#!") ==> !HasMarker(lines[j])
    requires multiset(base) <= multiset(lines)
    ensures var i := InsertionIndex(Classify(suffix, base).line, |base|);
      i < ScanWindow && forall j :: 0 <= j < i ==> !HasMarker(base[j])
  {
    var p := Classify(suffix, base);
    var i := InsertionIndex(p.line, |base|);
    if i == 1 {
      assert p.line == 1 && FirstLine(base) == base[0];
      ShebangOfCleanedFile(lines, base);
    }
  }

  /** A shebang that opens the cleaned file is a line of the original file,
      so under the side condition it carries no marker. */
  lemma ShebangOfCleanedFile(lines: seq<string>, base: seq<string>)
    requires forall j :: 0 <= j < |lines| && StartsWith(lines[j], "#!") ==> !HasMarker(lines[j])
    requires multiset(base) <= multiset(lines)
    requires |base| > 0 && StartsWith(base[0], "#!")
    ensures !HasMarker(base[0])
  {
    assert base[0] in multiset(base);
    assert base[0] in multiset(lines);
    var j :| 0 <= j < |lines| && lines[j] == base[0];
  }

  /** Updating twice is updating once, provided no shebang line carries the
      marker. (A shebang line carrying it is taken for the notice on the
      second run.) */
  lemma UpdateIdempotent(suffix: string, lines: seq<string>)
    requires forall j :: 0 <= j < |lines| && StartsWith(lines[j], "#!") ==> !HasMarker(lines[j])
    ensures NoticeUpdated(suffix, NoticeUpdated(suffix, lines)) == NoticeUpdated(suffix, lines)
  {
    var base := WithoutOldNotice(lines);
    var p := Classify(suffix, base);
    var i := InsertionIndex(p.line, |base|);
    var t := TerminateBefore(base, i);
    assert InsertNoticeAsWritten(t, p.prefix, p.line) == NoticeUpdated(suffix, lines);
    CleanedHeadIsMarkerFree(suffix, lines, base);
    TerminateKeepsMarkerFree(base, i);
    assert Classify(suffix, t) == p by {
      assert i == 1 ==> StartsWith(t[0], "#!");
    }
    UpdateFixesPlacedNotice(suffix, t);
  }

  /** The script's own update, with the splice as written, is idempotent at
      the level of lines under the same side condition: the second run finds
      the notice the first one put in, removes exactly it and puts it back. */
  lemma UpdateAsWrittenIdempotent(suffix: string, lines: seq<string>)
    requires forall j :: 0 <= j < |lines| && StartsWith(lines[j], "#!") ==> !HasMarker(lines[j])
    ensures NoticeUpdatedAsWritten(suffix, NoticeUpdatedAsWritten(suffix, lines))
         == NoticeUpdatedAsWritten(suffix, lines)
  {
    var base := WithoutOldNotice(lines);
    var p := Classify(suffix, base);
    var i := InsertionIndex(p.line, |base|);
    var y := InsertNoticeAsWritten(base, p.prefix, p.line);
    assert y == NoticeUpdatedAsWritten(suffix, lines);
    CleanedHeadIsMarkerFree(suffix, lines, base);
    RemovalFindsSplice(base, p.prefix, p.line);
    assert NoticeUpdatedAsWritten(suffix, y) == InsertNoticeAsWritten(base, p.prefix, p.line);
  }

  /** The two splices agree exactly when the line above the splice point
      already ends with a newline, or there is no line above it. */
  lemma SplicesAgreeWhenTerminated(lines: seq<string>, prefix: string, insertLine: int)
    ensures var i := InsertionIndex(insertLine, |lines|);
      InsertNotice(lines, prefix, insertLine) == InsertNoticeAsWritten(lines, prefix, insertLine)
      <==> i == 0 || EndsWithNewline(lines[i - 1])
  {
    var i := InsertionIndex(insertLine, |lines|);
    if i == 0 || EndsWithNewline(lines[i - 1]) {
      assert TerminateBefore(lines, i) == lines;
    } else {
      var c := InsertNotice(lines, prefix, insertLine);
      var w := InsertNoticeAsWritten(lines, prefix, insertLine);
      assert c[i - 1] == c[..i][i - 1] == TerminateBefore(lines, i)[i - 1] == lines[i - 1] + "\n";
      assert w[i - 1] == w[..i][i - 1] == lines[i - 1];
      assert |c[i - 1]| != |w[i - 1]|;
    }
  }

  /** The script's update and the corrected one agree exactly when the line
      above the insertion point already ends with a newline, as every line but
      the last of a file read by `readlines()` does. */
  lemma UpdateAgreesWhenTerminated(suffix: string, lines: seq<string>)
    ensures var base := WithoutOldNotice(lines);
      var i := InsertionIndex(Classify(suffix, base).line, |base|);
      NoticeUpdated(suffix, lines) == NoticeUpdatedAsWritten(suffix, lines)
      <==> i == 0 || EndsWithNewline(base[i - 1])
  {
    var base := WithoutOldNotice(lines);
    var p := Classify(suffix, base);
    assert NoticeUpdated(suffix, lines) == InsertNotice(base, p.prefix, p.line);
    assert NoticeUpdatedAsWritten(suffix, lines) == InsertNoticeAsWritten(base, p.prefix, p.line);
    SplicesAgreeWhenTerminated(base, p.prefix, p.line);
  }

  /** On a script whose only line is a shebang without a final newline the
      two updates differ: the script's leaves that line unterminated above
      the notice, the corrected one ends it with a newline. */
  lemma UpdatesDifferOnBareShebang()
    ensures var lines := ["#!/bin/sh"];
      && NoticeUpdatedAsWritten(".sh", lines)[0] == "#!/bin/sh"
      && NoticeUpdated(".sh", lines)[0] == "#!/bin/sh\n"
      && NoticeUpdatedAsWritten(".sh", lines) != NoticeUpdated(".sh", lines)
  {
    var lines := ["#!/bin/sh"];
    if HasMarker(lines[0]) {
      ContainsIsNoLonger(lines[0], Marker);
    }
    assert FirstNotice(lines, ScanWindow) == -1;
    assert WithoutOldNotice(lines) == lines;
    UnterminatedShebangIsJoined();
    var w := InsertNoticeAsWritten(lines, "# ", 1);
    var c := InsertNotice(lines, "# ", 1);
    assert w[0] == "#!/bin/sh";
    assert c[0] == TerminateBefore(lines, 1)[..1][0];
    assert c[0] == "#!/bin/sh\n";
  }

  /** The corrected update keeps every line but the last newline-ended;
      `UpdateKeepsReadBackShape` adds the rest of what a read back needs. */
  lemma UpdateKeepsLinesTerminated(suffix: string, lines: seq<string>)
    requires LinesTerminated(lines)
    ensures LinesTerminated(NoticeUpdated(suffix, lines))
  {
    var found := FirstNotice(lines, ScanWindow);
    if found != -1 {
      NoticeRemovedKeepsLinesTerminated(lines, found);
    }
    assert LinesTerminated(WithoutOldNotice(lines));
  }

  /** A line without a newline, ended by one, is a line as `readlines()`
      returns it. */
  lemma TerminatedLineShape(x: string)
    requires forall k :: 0 <= k < |x| ==> x[k] != '\n'
    ensures LineShape(x + "\n")
  {
    var y := x + "\n";
    assert forall k :: 0 <= k < |x| ==> y[k] == x[k];
  }

  /** Printable text ended by a newline is a line as `readlines()` returns
      it. */
  lemma PrintableLineShape(a: string, b: string)
    requires IsPrintableAscii(a) && IsPrintableAscii(b)
    ensures LineShape(a + b + "\n")
  {
    var x := a + b;
    assert forall k :: 0 <= k < |x| ==> x[k] == (if k < |a| then a[k] else b[k - |a|]);
    TerminatedLineShape(x);
  }

  /** Each line of the notice block, under any of the three comment
      prefixes, is a line as `readlines()` returns it. */
  lemma NoticeBlockHasLineShape(prefix: string)
    requires prefix == "// " || prefix == "# " || prefix == "% "
    ensures LineShape(prefix + NoticeFirstLine + "\n")
    ensures LineShape(prefix + NoticeSecondLine + "\n")
    ensures LineShape("\n")
  {
    assert IsPrintableAscii(prefix);
    FirstLineIsPrintable();
    SecondLineIsPrintable();
    PrintableLineShape(prefix, NoticeFirstLine);
    PrintableLineShape(prefix, NoticeSecondLine);
  }

  /** Terminating the line above the splice point keeps every line in the
      shape `readlines()` returns. */
  lemma TerminateKeepsLineShape(lines: seq<string>, i: nat)
    requires i <= |lines|
    requires forall j :: 0 <= j < |lines| ==> LineShape(lines[j])
    ensures var t := TerminateBefore(lines, i);
      forall j :: 0 <= j < |t| ==> LineShape(t[j])
  {
    if i > 0 && !EndsWithNewline(lines[i - 1]) {
      TerminatedLineShape(lines[i - 1]);
    }
  }

  /** Splicing the notice block in keeps every line in the shape
      `readlines()` returns, for each of the three comment prefixes. */
  lemma SpliceKeepsLineShape(lines: seq<string>, prefix: string, insertLine: int)
    requires forall j :: 0 <= j < |lines| ==> LineShape(lines[j])
    requires prefix == "// " || prefix == "# " || prefix == "% "
    ensures var r := InsertNoticeAsWritten(lines, prefix, insertLine);
      forall j :: 0 <= j < |r| ==> LineShape(r[j])
  {
    var i := InsertionIndex(insertLine, |lines|);
    var r := InsertNoticeAsWritten(lines, prefix, insertLine);
    NoticeBlockHasLineShape(prefix);
    forall j | 0 <= j < |r|
      ensures LineShape(r[j])
    {
      if j < i {
        assert r[j] == r[..i][j] == lines[j];
      } else if j >= i + 3 {
        assert r[j] == r[i + 3..][j - i - 3] == lines[j - 3];
      }
    }
  }

  /** The corrected splice keeps the lines in the shape `readlines()`
      returns, for each of the three comment prefixes. */
  lemma InsertNoticeKeepsReadBackShape(lines: seq<string>, prefix: string, insertLine: int)
    requires ReadBackShape(lines)
    requires prefix == "// " || prefix == "# " || prefix == "% "
    ensures ReadBackShape(InsertNotice(lines, prefix, insertLine))
  {
    var i := InsertionIndex(insertLine, |lines|);
    var t := TerminateBefore(lines, i);
    TerminateKeepsLineShape(lines, i);
    SpliceKeepsLineShape(t, prefix, insertLine);
    assert InsertionIndex(insertLine, |t|) == i;
    assert InsertNotice(lines, prefix, insertLine) == InsertNoticeAsWritten(t, prefix, insertLine);
  }

  /** The corrected update keeps the lines in the shape `readlines()`
      returns, so what it writes out reads back as the same lines. */
  lemma UpdateKeepsReadBackShape(suffix: string, lines: seq<string>)
    requires ReadBackShape(lines)
    ensures ReadBackShape(NoticeUpdated(suffix, lines))
  {
    var found := FirstNotice(lines, ScanWindow);
    if found != -1 {
      NoticeRemovedKeepsReadBackShape(lines, found);
    }
    var base := WithoutOldNotice(lines);
    var p := Classify(suffix, base);
    assert NoticeUpdated(suffix, lines) == InsertNotice(base, p.prefix, p.line);
    InsertNoticeKeepsReadBackShape(base, p.prefix, p.line);
  }

  /** The corrected update on a file's text: writing its result out and
      running it again on what is read back leaves that text unchanged. */
  lemma UpdateIdempotentOnText(suffix: string, text: string)
    requires var lines := ReadLines(text);
      forall j :: 0 <= j < |lines| && StartsWith(lines[j], "#!") ==> !HasMarker(lines[j])
    ensures var once := WriteLines(NoticeUpdated(suffix, ReadLines(text)));
      WriteLines(NoticeUpdated(suffix, ReadLines(once))) == once
  {
    var lines := ReadLines(text);
    ReadLinesHasShape(text);
    var updated := NoticeUpdated(suffix, lines);
    UpdateKeepsReadBackShape(suffix, lines);
    ReadBackRoundTrip(updated);
    UpdateIdempotent(suffix, lines);
  }

  /** Detection with the default window reads only the first five lines:
      whatever follows them cannot change its answer. */
  lemma DetectionReadsWindowOnly(lines: seq<string>, more: seq<string>)
    requires |lines| >= ScanWindow
    ensures ScanWindow == 5
    ensures FirstNotice(lines + more, ScanWindow) == FirstNotice(lines, ScanWindow)
  {
    var ext := lines + more;
    assert forall j :: 0 <= j < ScanWindow ==> ext[j] == lines[j];
  }

  /** A file with no marker at all gets the notice without anything being
      removed; detecting and removing it afterwards restores the file, up to
      a newline added where the notice was put below an unterminated line. */
  lemma UpdateFreshFile(suffix: string, lines: seq<string>)
    requires forall j :: 0 <= j < |lines| ==> !HasMarker(lines[j])
    ensures var p := Classify(suffix, lines);
      var r := NoticeUpdated(suffix, lines);
      var found := FirstNotice(r, ScanWindow);
      && r == InsertNotice(lines, p.prefix, p.line)
      && found == InsertionIndex(p.line, |lines|)
      && NoticeRemoved(r, found) == TerminateBefore(lines, found)
      && ((found == 0 || EndsWithNewline(lines[found - 1])) ==> NoticeRemoved(r, found) == lines)
  {
    var p := Classify(suffix, lines);
    assert WithoutOldNotice(lines) == lines;
    assert NoticeUpdated(suffix, lines) == InsertNotice(lines, p.prefix, p.line);
    CorrectedRoundTrip(lines, p.prefix, p.line);
  }

  /** A notice that sits wholly below the detection window is not seen: the
      update adds a second notice and keeps the old one. */
  lemma UpdateMissesNoticeBelowWindow(suffix: string, lines: seq<string>, k: nat)
    requires forall j :: 0 <= j < |lines| && j < ScanWindow ==> !HasMarker(lines[j])
    requires ScanWindow <= k < |lines| && HasMarker(lines[k])
    ensures var r := NoticeUpdated(suffix, lines);
      var i := InsertionIndex(Classify(suffix, lines).line, |lines|);
      i < k + 3 && HasMarker(r[i]) && r[k + 3] == lines[k]
  {
    var p := Classify(suffix, lines);
    NothingDetectedKeepsFile(lines);
    assert NoticeUpdated(suffix, lines) == InsertNotice(lines, p.prefix, p.line);
    SpliceShiftsLaterLines(lines, p.prefix, p.line, k);
  }

  /** With no marker in the window, the update removes nothing. */
  lemma NothingDetectedKeepsFile(lines: seq<string>)
    requires forall j :: 0 <= j < |lines| && j < ScanWindow ==> !HasMarker(lines[j])
    ensures WithoutOldNotice(lines) == lines
  {
    assert FirstNotice(lines, ScanWindow) == -1;
  }

  /** The corrected splice puts the marker line at the insertion point and
      moves every line from there on down by three. */
  lemma SpliceShiftsLaterLines(lines: seq<string>, prefix: string, insertLine: int, k: nat)
    requires InsertionIndex(insertLine, |lines|) <= k < |lines|
    ensures var r := InsertNotice(lines, prefix, insertLine);
      HasMarker(r[InsertionIndex(insertLine, |lines|)]) && r[k + 3] == lines[k]
  {
    var i := InsertionIndex(insertLine, |lines|);
    var r := InsertNotice(lines, prefix, insertLine);
    NoticeBlockIsRecognised(prefix);
    assert r[k + 3] == r[i + 3..][k - i] == lines[i..][k - i];
  }

  /** Classification looks at the suffix only through its lower-cased form. */
  lemma ClassifyIgnoresCase(suffix: string, lines: seq<string>)
    ensures Classify(suffix, lines) == Classify(Lower(suffix), lines)
  {
    LowerIdempotent(suffix);
  }

  /** Of the file, classification looks only at what `readline()` returns
      first. */
  lemma ClassifyReadsFirstLineOnly(suffix: string, a: seq<string>, b: seq<string>)
    requires FirstLine(a) == FirstLine(b)
    ensures Classify(suffix, a) == Classify(suffix, b)
  {
  }

  /** The three extension tables share no entry, so the order of the
      `if`/`elif` chain does not decide a suffix's comment style; together
      they hold eight suffixes, each a dot followed by one or more
      lower-case letters. */
  lemma ExtensionTablesAreDisjoint()
    ensures CExts !! ScriptExts && CExts !! TexExts && ScriptExts !! TexExts
    ensures |CExts| == 4 && |ScriptExts| == 3 && |TexExts| == 1
    ensures forall e :: e in CExts + ScriptExts + TexExts ==>
      |e| >= 2 && e[0] == '.' && forall k :: 1 <= k < |e| ==> 'a' <= e[k] <= 'z'
  {
  }

  /** Lower-cased known suffixes stay as they are. */
  lemma KnownSuffixesAreLowerCase()
    ensures forall e :: e in CExts + ScriptExts + TexExts ==> Lower(e) == e
  {
    forall e | e in CExts + ScriptExts + TexExts
      ensures Lower(e) == e
    {
      assert HasNoUpper(e);
      LowerKeepsLowerCase(e);
    }
  }

  /** Suffixes outside the three tables are treated like C files. */
  lemma UnknownSuffixIsTreatedAsC(suffix: string, lines: seq<string>)
    requires Lower(suffix) !in CExts + ScriptExts + TexExts
    ensures Classify(suffix, lines) == Classify(".c", lines) == Placement("// ", 0)
  {
    KnownSuffixesAreLowerCase();
  }

  /** Classification of a Python script with a shebang, under both `.py`
      and `.PY`, of an empty Python script, of a C++ file, of a TeX file and
      of an unknown suffix. */
  lemma DispatchExamples(body: seq<string>)
    ensures Classify(".py", ["#!/usr/bin/env python3\n"] + body) == Placement("# ", 1)
    ensures Classify(".PY", ["#!/usr/bin/env python3\n"] + body) == Placement("# ", 1)
    ensures Classify(".py", []) == Placement("# ", 0)
    ensures Classify(".cpp", body) == Placement("// ", 0)
    ensures Classify(".tex", body) == Placement("% ", 0)
    ensures Classify(".unknownext", body) == Placement("// ", 0)
  {
    KnownSuffixesAreLowerCase();
    assert Lower(".PY") == ".py" by {
      assert Lower(".PY")[1] == 'p' && Lower(".PY")[2] == 'y';
    }
    assert Lower(".cpp") == ".cpp" by {
      assert Lower(".cpp")[1] == 'c' && Lower(".cpp")[2] == 'p' && Lower(".cpp")[3] == 'p';
    }
    assert StartsWith("#!/usr/bin/env python3\n", "#!");
    var u := Lower(".unknownext");
    assert u[1] == 'u';
  }

  /** The splice as written, on a script whose only line is a shebang with
      no final newline: the notice goes below that line, which stays
      unterminated, so once written out the shebang and the first notice line
      are one line. The corrected splice keeps them apart. */
  lemma UnterminatedShebangIsJoined()
    ensures var lines := ["#!/bin/sh"];
      var p := Classify(".sh", lines);
      && p == Placement("# ", 1)
      && LinesTerminated(lines)
      && !LinesTerminated(InsertNoticeAsWritten(lines, p.prefix, p.line))
      && LinesTerminated(InsertNotice(lines, p.prefix, p.line))
  {
    var lines := ["#!/bin/sh"];
    assert Lower(".sh") == ".sh" by {
      assert Lower(".sh")[1] == 's' && Lower(".sh")[2] == 'h';
    }
    assert StartsWith(lines[0], "#!");
    var r := InsertNoticeAsWritten(lines, "# ", 1);
    assert r[0] == "#!/bin/sh" && !EndsWithNewline(r[0]);
  }

  /** A notice that opens the file, a marker line and a blank one, is
      removed and nothing else is. */
  lemma LeadingNoticeRemoved(rest: seq<string>)
    ensures WithoutOldNotice([Marker + "\n", "\n"] + rest) == rest
  {
    var lines := [Marker + "\n", "\n"] + rest;
    assert HasMarker(lines[0]) by {
      ContainsInfix([], Marker, "\n");
      assert [] + Marker + "\n" == lines[0];
    }
    assert IsBlank(lines[1]);
    assert FirstNotice(lines, ScanWindow) == 0;
    assert IsNoticeSpan(lines, 0, Span(0, 2));
    NoticeSpanIsUnique(lines, 0, Span(0, 2));
    assert lines[2..] == rest;
  }

  /** A shebang that carries the marker, with the notice below it as the
      update for `.sh` files puts it: the next update takes the shebang for
      the notice and removes both. */
  lemma MarkedShebangSwallowsNotice(shebang: string)
    requires StartsWith(shebang, "#!") && EndsWithNewline(shebang) && HasMarker(shebang)
    ensures Classify(".sh", [shebang]) == Placement("# ", 1)
    ensures var once := InsertNotice([shebang], "# ", 1);
      |once| == 4 && WithoutOldNotice(once) == []
  {
    KnownSuffixesAreLowerCase();
    assert ".sh" in ScriptExts;
    assert TerminateBefore([shebang], 1) == [shebang];
    assert InsertNotice([shebang], "# ", 1) == InsertNoticeAsWritten([shebang], "# ", 1);
    MarkedLineSwallowsSplice(shebang, "# ");
  }

  /** A one-line file whose line carries the marker, with a notice spliced
      below it: removal starts at that line and takes everything. */
  lemma MarkedLineSwallowsSplice(first: string, prefix: string)
    requires HasMarker(first)
    ensures WithoutOldNotice(InsertNoticeAsWritten([first], prefix, 1)) == []
  {
    var r := InsertNoticeAsWritten([first], prefix, 1);
    NoticeBlockIsRecognised(prefix);
    assert |r| == 4 && r[0] == first;
    assert FirstNotice(r, ScanWindow) == 0;
    assert !IsBlank(r[1]) && !IsBlank(r[2]) && IsBlank(r[3]);
    assert NoBlankIn(r, 1, 3);
    assert IsNoticeSpan(r, 0, Span(0, 4));
    NoticeSpanIsUnique(r, 0, Span(0, 4));
    CutBySpan(r, 0, Span(0, 4));
  }

  /** Without the side condition of `UpdateIdempotent` a second update can
      differ from the first: a shebang line that carries the marker and
      surfaces at the top once an old notice is removed is itself taken for
      the notice on the second run, and dropped. */
  lemma ShebangMarkerDefeatsIdempotence()
    ensures var lines := [Marker + "\n", "\n", "#!" + Marker + "\n"];
      NoticeUpdated(".sh", NoticeUpdated(".sh", lines)) != NoticeUpdated(".sh", lines)
  {
    var shebang := "#!" + Marker + "\n";
    var lines := [Marker + "\n", "\n", shebang];
    assert HasMarker(shebang) by {
      ContainsInfix("#!", Marker, "\n");
    }
    assert StartsWith(shebang, "#!");
    assert lines == [Marker + "\n", "\n"] + [shebang];
    LeadingNoticeRemoved([shebang]);
    MarkedShebangSwallowsNotice(shebang);
    var once := InsertNotice([shebang], "# ", 1);
    assert NoticeUpdated(".sh", lines) == once;
    var twice := NoticeUpdated(".sh", once);
    assert |twice| == |WithoutOldNotice(once)| + 3 == 3;
  }
}
