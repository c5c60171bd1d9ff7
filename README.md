# License-notice maintenance, modelled in Dafny

`scripts/prepend-license-notice.py` keeps one license notice at the head of
every source file it is pointed at. For each file it:

1. looks for the notice marker `This file is licensed under the GNU GPL v3`
   in the first five lines;
2. if it finds the marker, removes that notice block, which runs from the
   marker line through the first blank line after it;
3. picks a comment prefix and an insertion line from the file's lower-cased
   suffix. C-like files get `// `, scripts get `# `, TeX files get `% `, and
   anything else gets `// `. Scripts whose first line is a `#!` shebang get
   the notice on line 1, everything else on line 0;
4. splices in the two prefixed notice lines and one terminating empty line.

The entry point first prints usage for `--help` or no arguments. It then
refuses to touch anything outside a git work tree or in a work tree with
pending changes.

The model treats a file as the sequence of its lines, each with its trailing
newline, as Python's `readlines()` returns them. It is in three modules:

- `Text` (`text.dfy`) models the `str` operations the script relies on:
  substring test, `startswith`, `strip() == ""`, `lower()` and
  `splitlines()`.
- `LicenseNotice` (`license_notice.dfy`) holds the configuration constants
  and the four operations. Detection and removal are loops in the source, so
  they are methods (`HasFileNotice`, `RemoveExistingNotice`). Each is proved
  equal to a specification function (`FirstNotice`, `NoticeRemoved`).
  Removal keeps the source's three-state scan as the datatype `ScanState`.
  Insertion and classification are pure in the source, so they are functions.
  `DecideNotice` runs the per-file steps in the source's order, with the
  splice as the script writes it; it is proved equal to
  `NoticeUpdatedAsWritten`. `NoticeUpdated` is the same update with the
  corrected splice of the finding below.
  `MainOutcome` is the entry point's guard order.
- `NoticeProperties` (`notice_properties.dfy`) relates the operations to each
  other: round trips, idempotence of the update, classification facts, and two
  concrete counterexamples.

The marker literal tested in `has_file_notice` (line 92) is the same string as
`NOTICE_MARKER` (line 21). Both are the constant `LicenseNotice.Marker`.

The script's configuration values are constants of `LicenseNotice`:

- `NoticeFirstLine` and `NoticeSecondLine` are the two lines of `NOTICE`
  (lines 16-17), and `NoticeText` is `NOTICE` itself (lines 16-18).
  `NoticeTextLines` proves that splitting the text gives exactly these
  lines.
- `Marker` is `NOTICE_MARKER` (line 21). `MarkerOpensNotice` proves that it
  is the first line without its full stop.
- `CExts`, `ScriptExts` and `TexExts` are `C_EXTS`, `SCRIPT_EXTS` and
  `TEX_EXTS` (lines 27-29). They are described by `ExtensionTablesAreDisjoint`
  and `KnownSuffixesAreLowerCase`.
- `ScanWindow` is the default `end` of `has_file_notice` (line 83). It is
  described by `DetectionReadsWindowOnly`.

`FILE_DIRS` (line 24) is never read by the script, so it has no counterpart.

## Model

| member | source | states |
|---|---|---|
| `Text.StartsWith` | scripts/prepend-license-notice.py:175 | `first_line.startswith("#!")`, as a prefix test on the line. |
| `Text.StartsWithIffPrefix` | scripts/prepend-license-notice.py:175 | `StartsWith(s, p)` holds exactly when `p` is no longer than `s` and equals its first `len(p)` characters. |
| `Text.Contains` | scripts/prepend-license-notice.py:137 | Python's `NOTICE_MARKER in lines[i]`: `sub` is a prefix of `s` or of some tail of `s`. |
| `Text.OccursAt` | scripts/prepend-license-notice.py:92 | `sub` is the slice of `s` of its length starting at offset `k`. |
| `Text.ContainsIffOccurs` | scripts/prepend-license-notice.py:92 | The recursive substring test holds exactly when `sub` occurs in `s` at some offset, in both directions. |
| `Text.ContainsInfix` | scripts/prepend-license-notice.py:92 | Python's `sub in s` holds whenever `sub` occurs in `s` at any offset. |
| `Text.ContainsDropLast` | scripts/prepend-license-notice.py:137 | Appending a character creates no new occurrence of a string that does not end with that character. |
| `Text.IsWhitespace` | scripts/prepend-license-notice.py:143 | The characters `str.isspace()` accepts, which are the ones `strip()` removes: TAB to CR, FS to US, SPACE, NEL, NO-BREAK SPACE, OGHAM SPACE MARK, EN QUAD to HAIR SPACE, LINE SEPARATOR, PARAGRAPH SEPARATOR, NARROW NO-BREAK SPACE, MEDIUM MATHEMATICAL SPACE and IDEOGRAPHIC SPACE. |
| `Text.IsBlank` | scripts/prepend-license-notice.py:143 | Every character of the line is whitespace. |
| `Text.TrimStart` | scripts/prepend-license-notice.py:143 | `lstrip()`: the result is a suffix of the input, everything dropped is whitespace, and the result is empty or starts with a non-whitespace character. |
| `Text.TrimEnd` | scripts/prepend-license-notice.py:143 | `rstrip()`: the result is a prefix of the input, everything dropped is whitespace, and the result is empty or ends with a non-whitespace character. |
| `Text.Strip` | scripts/prepend-license-notice.py:143 | `strip()` leaves the empty string exactly when the line is blank, so `lines[i].strip() == ""` is `IsBlank(lines[i])`. |
| `Text.Lower` | scripts/prepend-license-notice.py:167 | `lower()` keeps the length and lower-cases each ASCII letter, position by position. |
| `Text.LowerIdempotent` | scripts/prepend-license-notice.py:167 | Lower-casing an already lower-cased suffix changes nothing. |
| `Text.LowerKeepsLowerCase` | scripts/prepend-license-notice.py:167 | A string without ASCII capitals is its own lower-cased form. |
| `Text.BreakLine` | scripts/prepend-license-notice.py:106 | The first line of a non-empty string: a boundary-free prefix, then either the end of the string or a boundary (CR LF counting as one), after which the rest follows. |
| `Text.SplitLines` | scripts/prepend-license-notice.py:106 | `splitlines()`: every resulting line is boundary-free, there are no more lines than characters, and only the empty string gives no lines. |
| `Text.SplitLinesCons` | scripts/prepend-license-notice.py:106 | `splitlines()` on a boundary-free line, then LF, then more text gives that line followed by the lines of the rest. |
| `LicenseNotice.HasMarker` | scripts/prepend-license-notice.py:137 | `NOTICE_MARKER in line`, the test shared by detection (line 92) and removal. |
| `LicenseNotice.MarkerOpensNotice` | scripts/prepend-license-notice.py:16-21 | The separately hard-coded marker is exactly the notice's first line without its final full stop. |
| `LicenseNotice.NoticeTextLines` | scripts/prepend-license-notice.py:16-18 | `NOTICE.splitlines()` gives exactly the two notice lines. |
| `LicenseNotice.NoticeBlockIsRecognised` | scripts/prepend-license-notice.py:106-110 | For every prefix: the first inserted line carries the marker, the second is not blank, and the `"\n"` terminator is blank and markerless. |
| `LicenseNotice.FirstNotice` | scripts/prepend-license-notice.py:83-94 | Gives -1 or an index below both `end` and the file length that carries the marker, with no marker line before it. It gives -1 exactly when none of the first `end` lines carries the marker. |
| `LicenseNotice.HasFileNotice` | scripts/prepend-license-notice.py:89-94 | The bounded `readline()` loop, which reads `""` past the end of the file, returns `FirstNotice(lines, end)`. |
| `LicenseNotice.WriteLines` | scripts/prepend-license-notice.py:114-115 | `writelines`: the lines' text one after another with no separator added, so the text starts with the first line. |
| `LicenseNotice.LineLength` | scripts/prepend-license-notice.py:91 | Where `readline()` cuts the first line: after the first newline, or at the end of the text; no newline comes earlier. |
| `LicenseNotice.ReadLines` | scripts/prepend-license-notice.py:103-104 | `readlines()` in text mode: the text cut into lines at each newline; never more lines than characters. |
| `LicenseNotice.ReadLinesHasShape` | scripts/prepend-license-notice.py:103-104 | Whatever the text, `readlines()` gives non-empty lines with a newline only at their end, all but the last ending with one, and writing them out gives back the text. |
| `LicenseNotice.ReadBackRoundTrip` | scripts/prepend-license-notice.py:114-115 | Lines of that shape, written out and read back, are the same lines; together with `ReadLinesHasShape` the shape is exactly what survives a round trip through a file. |
| `LicenseNotice.InsertionIndex` | scripts/prepend-license-notice.py:107 | The insertion line clamped to `[0, len(lines)]`: the line itself when in range, 0 below, the length above. |
| `LicenseNotice.NoticeLines` | scripts/prepend-license-notice.py:106 | The comprehension gives `[prefix + first line + "\n", prefix + second line + "\n"]`. |
| `LicenseNotice.InsertNoticeAsWritten` | scripts/prepend-license-notice.py:106-112 | Three more lines than the input. The lines above and below the clamped point are kept verbatim and in order. The three new lines are the two prefixed notice lines and `"\n"`. |
| `LicenseNotice.TerminateBefore` | scripts/prepend-license-notice.py:108-112 | Correction: the line above the splice point ends with a newline afterwards. Only that line can change, and only by an added newline. A line that already ended with one is left alone. |
| `LicenseNotice.InsertNotice` | scripts/prepend-license-notice.py:97-115 | The corrected splice: the same block at the same clamped point. It also keeps every interior line newline-terminated. |
| `LicenseNotice.SpliceKeepsLinesTerminated` | scripts/prepend-license-notice.py:108-115 | If every line but the last was newline-terminated, the corrected splice keeps it that way. |
| `LicenseNotice.NextMarker` | scripts/prepend-license-notice.py:136-140 | The first marker line at or after a position, or the file length when there is none. |
| `LicenseNotice.NextBlank` | scripts/prepend-license-notice.py:141-144 | The first `strip() == ""` line at or after a position, or the file length when there is none. |
| `LicenseNotice.NoticeSpan` | scripts/prepend-license-notice.py:118-146 | There is no span exactly when no line at or after `start` carries the marker. Otherwise the span runs from the first such marker line through the first blank line after it, or to the end of the file when there is none. |
| `LicenseNotice.NoticeSpanIsUnique` | scripts/prepend-license-notice.py:133-146 | Any span with those properties is the one the scan finds. |
| `LicenseNotice.NoticeRemoved` | scripts/prepend-license-notice.py:118-146 | Keeps `lines[:start]` verbatim, even when it contains the marker. The result is never longer than the input and is a sub-multiset of it. It equals the input exactly when no line at or after `start` carries the marker. |
| `LicenseNotice.NoticeRemovedKeepsOrder` | scripts/prepend-license-notice.py:126-146 | Removal cuts out one contiguous run of lines: the result is `lines[:a] + lines[b:]` for some `a <= b`, so every kept line stays in its order. |
| `LicenseNotice.NoticeRemovedKeepsLinesTerminated` | scripts/prepend-license-notice.py:124-151 | If every line but the last of the file ended with a newline, the same holds after removal. |
| `LicenseNotice.NoticeRemovedKeepsReadBackShape` | scripts/prepend-license-notice.py:124-151 | Lines as `readlines()` returns them stay so after removal, so the rewritten file reads back as exactly the lines removal kept. |
| `LicenseNotice.RemoveExistingNotice` | scripts/prepend-license-notice.py:123-146 | The three-state loop (scanning, skipping, copying) returns `NoticeRemoved(lines, start)`. |
| `LicenseNotice.FirstLine` | scripts/prepend-license-notice.py:172-173 | What the first `readline()` returns: line 0, or `""` for an empty file. |
| `LicenseNotice.Classify` | scripts/prepend-license-notice.py:167-182 | The insertion line is 0 or 1. It is 1 exactly for a script suffix whose first line starts with `#!`. The prefix is `# ` exactly for script suffixes, `% ` exactly for `.tex`, and `// ` otherwise. The suffix is compared lower-cased. |
| `LicenseNotice.WithoutOldNotice` | scripts/prepend-license-notice.py:156-159 | Removal runs only when detection finds a notice. The result is a sub-multiset of the file. |
| `LicenseNotice.NoticeUpdatedAsWritten` | scripts/prepend-license-notice.py:154-184 | The script's per-file update: remove a detected notice, classify what is left, splice in with `InsertNoticeAsWritten`. |
| `LicenseNotice.NoticeUpdated` | scripts/prepend-license-notice.py:154-184 | The same update with the corrected splice `InsertNotice`. |
| `LicenseNotice.DecideNotice` | scripts/prepend-license-notice.py:154-184 | Detect, remove if found, classify the file as it is after removal, splice in as the script does. The result equals `NoticeUpdatedAsWritten`. |
| `LicenseNotice.MainOutcome` | scripts/prepend-license-notice.py:198-231 | Files are processed only inside a clean work tree and without `--help`. With help or no arguments `main` returns 0. When a guard fails it returns -1 with nothing processed; `sys.exit(-1)` then ends the process with status 255 on POSIX. Otherwise all arguments are processed. |
| `NoticeProperties.InsertThenDetect` | scripts/prepend-license-notice.py:83-112 | A notice spliced inside the window, below marker-free lines, is detected at its clamped line. |
| `NoticeProperties.InsertThenRemove` | scripts/prepend-license-notice.py:106-146 | Removing from the splice point restores the original lines exactly, for any file and any prefix. |
| `NoticeProperties.RoundTrip` | scripts/prepend-license-notice.py:83-146 | Splice, detect, remove: detection yields the clamped insertion line and removal restores the file. |
| `NoticeProperties.TerminateKeepsMarkerFree` | scripts/prepend-license-notice.py:92 | Terminating the line above the splice point adds no marker. |
| `NoticeProperties.CorrectedRoundTrip` | scripts/prepend-license-notice.py:83-146 | The round trip with the corrected splice. It restores the file, up to the newline added to an unterminated line above the notice. |
| `NoticeProperties.UpdatePlacesNotice` | scripts/prepend-license-notice.py:154-184 | After the corrected update, the notice block sits at the classification's line of the cleaned file. Every other line of that file stays in order. |
| `NoticeProperties.UpdateKeepsShebangFirst` | scripts/prepend-license-notice.py:170-178 | A script with a shebang keeps the shebang as line 0, with the marker on line 1. |
| `NoticeProperties.UpdateFixesPlacedNotice` | scripts/prepend-license-notice.py:154-184 | A file that already carries the update's own notice at the update's own line is left unchanged. |
| `NoticeProperties.UpdateIdempotent` | scripts/prepend-license-notice.py:154-184 | With the corrected update, updating twice equals updating once, for every file in which no shebang line carries the marker. |
| `NoticeProperties.UpdateAsWrittenIdempotent` | scripts/prepend-license-notice.py:154-184 | The script's own update is idempotent on lines under the same side condition: the second run removes exactly the notice the first one put in and puts it back. |
| `NoticeProperties.SplicesAgreeWhenTerminated` | scripts/prepend-license-notice.py:107-112 | The as-written and the corrected splice give the same lines exactly when the splice point is line 0 or the line above it ends with a newline. |
| `NoticeProperties.InsertNoticeKeepsReadBackShape` | scripts/prepend-license-notice.py:106-115 | With any of the three comment prefixes, the corrected splice keeps lines in the shape `readlines()` returns. |
| `NoticeProperties.UpdateAgreesWhenTerminated` | scripts/prepend-license-notice.py:107-112 | The script's update and the corrected one give the same lines exactly when the line above the insertion point ends with a newline, or the insertion point is line 0. |
| `NoticeProperties.UpdatesDifferOnBareShebang` | scripts/prepend-license-notice.py:107-112 | On `.sh` and the one line `#!/bin/sh` without a newline, the script's update keeps line 0 as `#!/bin/sh` and the corrected one makes it `#!/bin/sh\n`, so the two differ. |
| `NoticeProperties.UpdateKeepsLinesTerminated` | scripts/prepend-license-notice.py:154-184 | The corrected update keeps every line but the last newline-ended. |
| `NoticeProperties.UpdateKeepsReadBackShape` | scripts/prepend-license-notice.py:154-184 | Lines as `readlines()` returns them stay so after the corrected update, so what it writes out reads back as the same lines. |
| `NoticeProperties.UpdateIdempotentOnText` | scripts/prepend-license-notice.py:154-184 | On file text, under `UpdateIdempotent`'s side condition: read, update, write, then read, update and write again, and the second run writes exactly the text the first one wrote. |
| `NoticeProperties.DetectionReadsWindowOnly` | scripts/prepend-license-notice.py:83-94 | The default window is 5 lines, and lines after the first five cannot change what detection returns. |
| `NoticeProperties.UpdateFreshFile` | scripts/prepend-license-notice.py:154-184 | On a marker-free file nothing is removed. Detecting and removing afterwards restores the file, up to the newline added to an unterminated line above the notice; exactly the file when that line already ended with one. |
| `NoticeProperties.UpdateMissesNoticeBelowWindow` | scripts/prepend-license-notice.py:83-94 | A notice below the five-line window goes undetected. The update adds a second notice and keeps the old one. |
| `NoticeProperties.ClassifyIgnoresCase` | scripts/prepend-license-notice.py:167 | Classifying a suffix gives the same result as classifying its lower-cased form. |
| `NoticeProperties.ClassifyReadsFirstLineOnly` | scripts/prepend-license-notice.py:172-178 | Of the file's contents, classification depends only on what the first `readline()` returns. |
| `NoticeProperties.ExtensionTablesAreDisjoint` | scripts/prepend-license-notice.py:27-29 | The three tables share no suffix and hold 4, 3 and 1 entries, each a dot followed by one or more lower-case letters; so the order of the `if`/`elif` chain does not decide the style of any listed suffix. |
| `NoticeProperties.KnownSuffixesAreLowerCase` | scripts/prepend-license-notice.py:27-29 | Every entry of the three tables is its own lower-cased form, so each is reachable after `.lower()`. |
| `NoticeProperties.UnknownSuffixIsTreatedAsC` | scripts/prepend-license-notice.py:181-182 | A suffix in none of the three tables is treated exactly like `.c`: `// `, line 0. |
| `NoticeProperties.DispatchExamples` | scripts/prepend-license-notice.py:167-182 | `.py` with a shebang (or `.PY`) gives `# ` at line 1. An empty `.py` file gives `# ` at line 0. `.cpp` gives `// `, `.tex` gives `% ` and an unknown suffix gives `// `, all at line 0. |
| `NoticeProperties.UnterminatedShebangIsJoined` | scripts/prepend-license-notice.py:107-112 | Finding: on the one-line file `#!/bin/sh` without a final newline, the as-written splice leaves an unterminated interior line. The corrected splice does not. |
| `NoticeProperties.LeadingNoticeRemoved` | scripts/prepend-license-notice.py:156-159 | A marker line followed by a blank line at the top of the file is removed, and nothing else is. |
| `NoticeProperties.MarkedShebangSwallowsNotice` | scripts/prepend-license-notice.py:156-184 | A `.sh` shebang carrying the marker, with the notice below it, is removed together with that notice on the next update. |
| `NoticeProperties.ShebangMarkerDefeatsIdempotence` | scripts/prepend-license-notice.py:154-184 | A concrete file shows that `UpdateIdempotent` needs its side condition: two updates differ from one. |

## Left out

- The git queries `is_git_work_tree`, `git_root` and `git_work_tree_clean` (lines 37-80) run a foreign process. They become the booleans `inWorkTree` and `clean` of `MainOutcome`. The hard exit in `git_root` is not modelled.
- Path handling in `main` (lines 218-229) is not modelled: joining relative paths to the git root, `is_file`/`is_dir`, the recursive `rglob` walk and the `os.access` permission filter are filesystem enumeration. `MainOutcome` says only which arguments go on to be processed.
- Opening, seeking and truncating files is not modelled. The operations work on sequences of lines; `ReadLines` and `WriteLines` model what `readlines` and `writelines` do to text once newlines are `\n`. Encoding and universal-newline translation are outside the model.
- `usage` and every `print` are console output and are left out.
- `pathlib.Path.suffix` is left out. The suffix is an input string.
- Text.Lower: lower-cases ASCII letters only, while `str.lower()` covers all of Unicode. The three tables contain only the letters a b c e h p s t x y. No non-ASCII character lower-cases to any of them, so classification is unaffected.
- Text.SplitLines: it is only ever applied to the notice constant, which holds plain ASCII and LF only.
- LicenseNotice.RemoveExistingNotice: `start` is a natural number. Python would index a negative `start` from the end, but the only caller passes an index that detection found. A `start` past the end is clamped, as Python's slice does.
- NoticeProperties.UpdateIdempotent: weaker than the unconditional idempotence the comments at lines 157-158 suggest. It requires that no shebang line carries the marker, and `ShebangMarkerDefeatsIdempotence` shows that some side condition is needed. The condition is sufficient, not necessary: a `.c` file whose line 10 is `#!` followed by the marker, for instance, is left as it is by a second update. `UpdateIdempotentOnText` has the same side condition.
- NoticeProperties.UpdateAsWrittenIdempotent: the script's own update is proved idempotent on lines only, under the same side condition as `UpdateIdempotent`. It is not proved on text: a cleaned file that is one shebang line without a newline is written back joined to the marker line, and the next run then drops the shebang.
- NoticeProperties.UpdatePlacesNotice, `UpdateKeepsShebangFirst`, `UpdateFixesPlacedNotice`, `UpdateFreshFile`, `UpdateMissesNoticeBelowWindow` and `ShebangMarkerDefeatsIdempotence` speak of the corrected update `NoticeUpdated`, not of the script's `NoticeUpdatedAsWritten`. `UpdateAgreesWhenTerminated` carries them over to the script's update whenever the line above the insertion point ends with a newline. `UpdateAgreesWhenTerminated` also shows that they differ exactly when that line lacks a newline; for a file as `readlines()` returns it, that happens only when the cleaned file is a single shebang line without a final newline, which may be the file as given or what removal left, such as a marker line, a blank line and then `#!/bin/sh`. `UpdatesDifferOnBareShebang` is one instance.
- Crash safety of the in-place rewrite (no temporary file and rename) is a property of I/O and is not modelled.

## Findings

| source | as written | input that shows it | evidently intended | confidence | as-written member | corrected member |
|---|---|---|---|---|---|---|
| scripts/prepend-license-notice.py:107-112 | The notice is spliced in below the last line even when that line has no final newline, and `writelines` adds no separator. | A `.sh` file whose whole contents are `#!/bin/sh` with no newline: it is written back as `#!/bin/sh# This file is licensed under the GNU GPL v3.` followed by the rest of the notice. | The notice starts on a line of its own below the shebang. | high; not executed | `LicenseNotice.InsertNoticeAsWritten` with `NoticeProperties.UnterminatedShebangIsJoined` | `LicenseNotice.InsertNotice` (with `SpliceKeepsLinesTerminated`, `CorrectedRoundTrip`, `UpdateIdempotent`) |

`DecideNotice` and `NoticeUpdatedAsWritten` keep the splice as written;
`NoticeUpdated` is the update with the corrected splice, and
`UpdatesDifferOnBareShebang` shows where the two part. Every lemma about
the as-written splice (`InsertThenDetect`, `InsertThenRemove`, `RoundTrip`)
carries over to the corrected splice through `TerminateBefore`.
