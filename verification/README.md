# Taskline version metadata, modelled in Dafny

Taskline keeps the name and version of a `.tskln` script in a header at
the top of the file:

```
@Taskline codename <name>
@Taskline version <version>
```

Three parts of the repository read or write that header, and each has its
own parser. This project models all three as they are written and proves
what each promises and how they disagree.

- **The shared library** (`src/lib.rs`, module `TasklineLib`):
  - `Version`, with `parse`, `Display` (`vM.m.p`) and the three bumps;
  - `TasklineMetadata::parse`, a loop over the lines in which the last match wins;
  - `to_header`.
- **`taskline-bump`** (module `TasklineBump`):
  - the bump tag parser `from_str_fast`;
  - the byte loop `parse_version_fast`, which reads `M.m.p` with no `v`;
  - the in-memory part of `main`. It scans for the first version line and bumps it. It replaces the line, or inserts or appends a new one. It joins the lines and builds the new file name `stem_vM.m.p[.ext]`.
- **`taskline-init`** (module `TasklineInit`):
  - the byte state machine `validate_version`;
  - the target file name and header templates.
- **How the tools read each other's output** (module `Interplay`):
  - init writes `v1.2.3`, and bump never sees it;
  - bump writes `1.2.4`, and the library never sees it;
  - init accepts versions beyond `u32` that the library then drops;
  - the library takes the last match and bump takes the first.

Module `Text` states the Rust standard library behaviour the tools rely on:
- `str::split` on one character;
- joining with a separator;
- `str::lines` (split at `'\n'`, drop one `'\r'` before a `'\n'`, no final empty line);
- `u32::from_str` (optional `'+'`, at least one digit, leading zeros allowed, value below 2^32);
- the `{}` rendering of an unsigned integer.

A Rust `&str` is modelled as its bytes: each `char` of a Dafny `string`
stands for one byte. Every literal compared against is ASCII.

Loops in the source are methods with loop invariants, each proved against a
function that states the result without the loop:
- `TasklineLib.ParseMetadata` against `MetadataOf`;
- `TasklineBump.ParseVersionFast` against `FastVersion`. It keeps the source's three-slot `parts` array;
- `TasklineBump.ScanLines` against `FirstVersion`;
- `TasklineBump.JoinLines` against `Join`;
- `TasklineInit.ValidateVersion` against `Validation` and `IsVersionString`.

## Model

| member | source | states |
|---|---|---|
| Text.NatToString | src/lib.rs:75 | the rendering of a number is a non-empty digit string. It has that number as its decimal value and no leading zero except for 0 itself. |
| Text.Split | src/lib.rs:45 | `str::split` on one character yields at least one piece, and no piece holds the separator |
| Text.ParseU32Decimal | src/lib.rs:50-52 | `u32::from_str` reads the decimal rendering of every `u32` back as that value |
| Text.ParseU32Rejects | src/lib.rs:50-52 | `u32::from_str` rejects an empty segment, a '-' sign, or a segment containing '.' |
| Text.JoinSplit | src/lib.rs:45 | joining the pieces of a split with the separator gives the text back |
| Text.SplitJoin | src/lib.rs:45 | splitting undoes joining whenever no part contains the separator |
| Text.SplitPrefix | src/lib.rs:45 | a longer text keeps every piece a prefix has finished, and the open piece only grows |
| Text.SplitDigits | taskline-bump/src/main.rs:57-70 | a text of digits and separators splits into digit strings |
| Text.LinesOfJoin | taskline-bump/src/main.rs:133-140 | `str::lines` of lines joined with '\n' gives the lines back, except a final empty line |
| Text.LinesAvoidCR | src/lib.rs:92 | text without '\r' yields lines with no line-break character |
| Text.SplitDottedTriple | src/lib.rs:75 | `M.m.p` splits on '.' into the three renderings |
| Text.Lines | src/lib.rs:92 | `str::lines` yields lines without '\n' |
| TasklineLib.Parse | src/lib.rs:40-55 | an accepted string starts with 'v'. The "must start with 'v'" error is returned exactly when the string is empty or lacks the 'v'. |
| TasklineLib.ParseAccepts | src/lib.rs:40-55 | `parse(s)` returns version v iff s is "v" + x + "." + y + "." + z, where x, y and z are `u32` literals whose values are v's major, minor and patch |
| TasklineLib.ParseComposed | src/lib.rs:40-55 | 'v' followed by any three `u32` literals joined with '.' parses to the version of their three values |
| TasklineLib.ParseFormat | src/lib.rs:40-77 | round trip: parsing the `Display` of any version gives that version |
| TasklineLib.DefaultVersionParses | src/lib.rs:117 | the default version `v0.0.1` parses to 0.0.1 |
| TasklineLib.ParseRejectsNoV | src/lib.rs:128 | "1.2.3" is rejected for its missing 'v' |
| TasklineLib.ParseRejectsTwoSegments | src/lib.rs:129 | "v1.2" is rejected with the format error |
| TasklineLib.ParseRejectsFourSegments | src/lib.rs:45-48 | "v1.2.3.4" is rejected with the format error |
| TasklineLib.ParseRejectsNonNumeric | src/lib.rs:50 | "va.b.c" has three segments and is rejected as an invalid major version |
| TasklineLib.BumpPatch | src/lib.rs:58-60 | patch + 1, other components kept; the result is strictly greater in the derived order |
| TasklineLib.BumpMinor | src/lib.rs:63-65 | minor + 1, patch reset to 0, major kept; strictly greater |
| TasklineLib.BumpMajor | src/lib.rs:68-70 | major + 1, minor and patch reset to 0; strictly greater |
| TasklineLib.BumpExamples | src/lib.rs:133-138 | 1.2.3 bumps to 1.2.4, 1.3.0 and 2.0.0 |
| TasklineLib.LastPickAt | src/lib.rs:92-100 | last match wins: the field holds the value from the last line that sets it, whatever comes before |
| TasklineLib.LastPickNone | src/lib.rs:89-100 | a field no line sets keeps its initial value |
| TasklineLib.ParseMetadata | src/lib.rs:88-103 | the loop returns the codename after the prefix of the last codename line (or ""). It returns the version of the last version line that parses. A line that fails to parse changes nothing. |
| TasklineLib.FormatChars | src/lib.rs:73-77 | a rendered version holds only 'v', digits and dots, and ends in a digit |
| TasklineLib.CodenameLineIsLine | src/lib.rs:93-94 | the codename line `to_header` writes is one line and reads back as that codename |
| TasklineLib.VersionHeaderLineGivesVersion | src/lib.rs:95-98 | the version line `to_header` writes reads back as that version and sets no codename |
| TasklineLib.HeaderLines | src/lib.rs:106-111 | the lines of a header: codename line, version line when there is a version, one empty line |
| TasklineLib.ParseToHeader | src/lib.rs:86-111 | round trip: parsing `to_header(m)` gives `m` back when the codename has no line break |
| TasklineLib.HeaderThenBody | src/lib.rs:88-103 | a header with a version, followed by one line that sets neither field, still parses to the header's codename and version |
| TasklineLib.MetadataExample | src/lib.rs:141-146 | the library's test content parses to codename "test-script" and version 1.2.3 |
| TasklineBump.FromStrFastMarksSlot | taskline-bump/src/main.rs:26-34 | a tag gives bump kind k iff it is three characters with an 'x' in k's slot and '.' elsewhere |
| TasklineBump.FromStrFastRejects | taskline-bump/src/main.rs:26-34 | a string is rejected iff it marks no slot |
| TasklineBump.FromStrFastExamples | taskline-bump/src/main.rs:180-184 | "..X", "x.x", "...", "" and "xxx" are rejected (case-sensitive) |
| TasklineBump.NextVersion | taskline-bump/src/main.rs:106-110 | the components above the bumped slot are kept, the slot is incremented, the components below are reset to 0, and the result is strictly greater |
| TasklineBump.ParseVersionFast | taskline-bump/src/main.rs:38-78 | the byte loop returns exactly `FastVersion(line)` |
| TasklineBump.TallySplit | taskline-bump/src/main.rs:57-70 | after any run of digits and dots, the loop has closed one value per dot. Each value is the decimal value of its piece (an empty piece counts as 0), and `num` is the value of the open piece. |
| TasklineBump.TallyGivesFastVersion | taskline-bump/src/main.rs:72-77 | where the loop stops, its state decides the result: Some exactly when two parts were closed |
| TasklineBump.ScanRun | taskline-bump/src/main.rs:57-70 | the loop reads the longest prefix of digits and dots and stops at the first other byte |
| TasklineBump.ThirdDot | taskline-bump/src/main.rs:62-63 | a third dot in the run of digits and dots rules the line out |
| TasklineBump.FastVersionTrailing | taskline-bump/src/main.rs:57-70 | text after `M.m.p` that starts with anything but a digit or a dot is ignored |
| TasklineBump.FastVersionNoRun | taskline-bump/src/main.rs:57-70 | a byte that is neither a digit nor a dot right after the prefix (a 'v', a letter) gives None |
| TasklineBump.FastVersionExtraPart | taskline-bump/src/main.rs:62-63 | `M.m.p.` followed by anything gives None |
| TasklineBump.FastVersionLine | taskline-bump/src/main.rs:113-116 | round trip: the tool reads back every version line it writes |
| TasklineBump.FastVersionAccepted | taskline-bump/src/main.rs:188-194 | "1.0.0", "10.20.30", "0.0.1" and "999.999.999" after the prefix read as those triples |
| TasklineBump.FastVersionRejected | taskline-bump/src/main.rs:197-206 | a missing patch, a fourth part, "a.b.c", a wrong prefix, a missing version, the empty line and "random text" each read as nothing |
| TasklineBump.VersionLineIsLine | taskline-bump/src/main.rs:113-116 | the written version line is non-empty and holds no line break |
| TasklineBump.FirstVersion | taskline-bump/src/main.rs:95-103 | an index it finds is a line of the file |
| TasklineBump.FirstVersionAt | taskline-bump/src/main.rs:95-103 | first match wins: a version line with none before it is the one found, whatever follows |
| TasklineBump.FirstVersionNone | taskline-bump/src/main.rs:91-103 | with no version line nothing is found, so the version stays (0,0,0) |
| TasklineBump.FirstVersionSound | taskline-bump/src/main.rs:95-103 | whatever is found is a version line with no version line before it |
| TasklineBump.PlaceVersionLine | taskline-bump/src/main.rs:119-130 | if a line was found, only that line changes and the length is unchanged. Otherwise the new line goes in at index 1 when there are at least two lines and the rest keep their order, or it is appended. |
| TasklineBump.ScanLines | taskline-bump/src/main.rs:90-103 | the loop collects every line and returns the index and version of the first version line, or (0,0,0) with no index |
| TasklineBump.JoinLines | taskline-bump/src/main.rs:133-140 | the loop produces the lines with one '\n' between consecutive lines and none at the end |
| TasklineBump.BumpScript | taskline-bump/src/main.rs:89-154 | `main` without its I/O: the new version is the bump of the first version found. The new content is the joined lines with the version line placed. The new name is the renamed file. |
| TasklineBump.BumpAgain | taskline-bump/src/main.rs:95-140 | reading back the written content finds the version just written, which is strictly greater than the one read |
| TasklineBump.LastDot | taskline-bump/src/main.rs:147-148 | the index of the last '.', or -1 |
| TasklineBump.StemAndExtensionRebuild | taskline-bump/src/main.rs:147-148 | stem + "." + extension is the name, and the extension holds no '.'. Without an extension the name has no '.' after its first character. |
| TasklineBump.RenameKeepsExtension | taskline-bump/src/main.rs:151-152 | a renamed file keeps its extension, and its stem gains `_vM.m.p` |
| TasklineBump.RenameWithoutExtension | taskline-bump/src/main.rs:153 | a name without extension gains one: the patch number |
| TasklineBump.RenamedFileWithExtension | taskline-bump/src/main.rs:345-359 | `my-script.v1.2.3.tskln` at 2.0.0 becomes `my-script.v1.2.3_v2.0.0.tskln` |
| TasklineBump.RenamedFileWithoutExtension | taskline-bump/src/main.rs:363-377 | `my-script` at 1.5.2 becomes `my-script_v1.5.2` |
| TasklineInit.ValidateVersion | taskline-init/src/main.rs:20-108 | the loop returns `Validation(version)` with every early exit and message. It accepts exactly 'v' followed by three non-empty digit runs separated by dots. `dot_count` stays at most 2. |
| TasklineInit.RunStops | taskline-init/src/main.rs:52-89 | the first error of the loop is final: later bytes are never read |
| TasklineInit.RunSplit | taskline-init/src/main.rs:52-89 | the loop gets through a text iff it is digits and dots, has at most three parts, and every part closed by a dot is non-empty. Its state is then the dot count and whether the open part has a digit. |
| TasklineInit.ValidationAccepts | taskline-init/src/main.rs:20-108 | `validate_version` is Ok iff the string is 'v' digit+ '.' digit+ '.' digit+, with no numeric bound |
| TasklineInit.AcceptedLength | taskline-init/src/main.rs:29-35 | every accepted version has at least 6 bytes, so the length check only chooses the message |
| TasklineInit.AcceptedChars | taskline-init/src/main.rs:52-89 | an accepted version is 'v' followed by digits and dots only |
| TasklineInit.RunInvalid | taskline-init/src/main.rs:80-85 | "Invalid character" is reported only when some byte after the 'v' is neither a digit nor a dot |
| TasklineInit.ValidationShortOrNoV | taskline-init/src/main.rs:277-307 | "", "v", "v1" and "v1.0" get the too-short message; "1.0.0" gets the missing-'v' message |
| TasklineInit.ValidationAccepted | taskline-init/src/main.rs:253 | "v1.0.0" is accepted |
| TasklineInit.ValidationAccepted2 | taskline-init/src/main.rs:259 | "v10.20.30" is accepted |
| TasklineInit.ValidationLastEmpty | taskline-init/src/main.rs:283 | "v1.0." gets the last-part-empty message |
| TasklineInit.ValidationEmptyMajor | taskline-init/src/main.rs:286 | "v.1.0" gets the empty-part message |
| TasklineInit.ValidationEmptyMinor | taskline-init/src/main.rs:289 | "v1..0" gets the empty-part message |
| TasklineInit.ValidationExtraPart | taskline-init/src/main.rs:292 | "v1.0.0.1" gets the too-many-dots message at the third dot |
| TasklineInit.ValidationTrailingDot | taskline-init/src/main.rs:329 | "v1.2.3." gets the too-many-dots message |
| TasklineInit.ValidationNonNumeric | taskline-init/src/main.rs:295 | "va.b.c" gets the invalid-character message |
| TasklineInit.ValidationLetterAfter | taskline-init/src/main.rs:298 | "v1.2.3a" gets the invalid-character message |
| TasklineInit.ValidationTwoParts | taskline-init/src/main.rs:92-97 | "v1.23" gets the missing-dots message |
| TasklineInit.TargetFileName | taskline-init/src/main.rs:163-176 | the target name always ends in ".tskln" |
| TasklineInit.TargetFileNameExamples | taskline-init/src/main.rs:172-175 | `test-script` with `v1.2.3` gives `test-script.v1.2.3.tskln`; without a version it gives `test-script.tskln` |
| TasklineInit.InitHeaderWithoutVersion | taskline-init/src/main.rs:374 | the header without a version is the codename line and an empty line |
| TasklineInit.InitHeaderWithVersion | taskline-init/src/main.rs:419 | the header with `v1.2.3` carries the version as given, 'v' included |
| Interplay.InitHeaderAgrees | taskline-init/src/main.rs:204-212 | init writes exactly the library's `to_header` when its version argument is the rendering of a version |
| Interplay.InitVersionLineReads | src/lib.rs:95-98 | the library reads init's version line with `Version::parse` |
| Interplay.InitHeaderLines | taskline-init/src/main.rs:204-212 | the header init writes with a valid version reads as three lines: the codename line, the version line, and an empty line |
| Interplay.InitHeaderReadBack | taskline-init/src/main.rs:204-212 | the library reads back the header init writes: the codename, and the version when `Version::parse` accepts it |
| Interplay.InitAcceptsWhatLibraryRejects | taskline-init/src/main.rs:76-79 | init accepts "v4294967296.0.0", which the library rejects as an invalid major version |
| Interplay.InitVersionInvisibleToBump | taskline-bump/src/main.rs:57-70 | bump never reads the version line init writes: the 'v' ends the run before it starts |
| Interplay.InitLinesHaveNoBumpVersion | taskline-bump/src/main.rs:97 | bump finds no version in any line init writes |
| Interplay.ReadersDisjoint | taskline-bump/src/main.rs:40-70 | no line is accepted by both the bump reader and the library reader |
| Interplay.BumpLineInvisibleToLibrary | taskline-bump/src/main.rs:113-116 | the library ignores the version line bump writes |
| Interplay.BumpAfterInit | taskline-bump/src/main.rs:119-130 | bumping a file init wrote with a version starts from 0.0.0. It inserts its own line after the codename and keeps init's line. |
| Interplay.BumpWithoutVersionLine | taskline-bump/src/main.rs:319-342 | a file of two or more lines with no version line bumps from (0,0,0), and the new line goes in at index 1 |
| Interplay.LibraryAfterBumpAfterInit | src/lib.rs:92-100 | after that bump the library still reads init's version and ignores the bump's line |
| Interplay.ScanOrder | taskline-bump/src/main.rs:96-101 | with two version lines, bump reads the first and the library reads the last |
| Interplay.NextVersionAgrees | taskline-bump/src/main.rs:106-110 | bump's arithmetic equals the library's `bump_*` wherever the latter is defined |
| Interplay.InitNameBumps | taskline-bump/src/main.rs:151-154 | a file init created keeps its `.tskln` extension through a bump: the new name is the old stem, then `_vM.m.p`, then `.tskln` |
| Interplay.TargetNameSplits | taskline-bump/src/main.rs:146-148 | the name init picks is a bare file name, and it splits into the stem init chose and the extension "tskln" |

## Left out

- File system effects are outside the model:
  - reading, writing and renaming the file (taskline-bump/src/main.rs:89, 143, 156-161);
  - creating and writing the file and the `exists()` check (taskline-init/src/main.rs:180-220).
  - `BumpScript` takes the file content as a parameter and returns the new content and name.
- Logging, the IST timestamp formatter, `println!`/`eprintln!`, argument counting and `process::exit` are left out. They are I/O and carry no logic.
- async/tokio is left out: `validate_version` awaits nothing and is modelled as a plain method.
- `src/main.rs` is not part of this model. It is a command dispatcher that spawns processes.
- `Path` is modelled only for the final name component: stem and extension split at the last '.', unless that '.' is the first character. `BumpScript` requires such a bare name. A directory part, `parent().join` and the rename's target directory are not modelled.
- `Version::new` is the `Version` datatype constructor.
- `TasklineError`'s `Display` and the `FileError`/`ParseError` variants are declared but not used by the modelled code.
- The `Display` of `TasklineInitializationError` (taskline-init/src/main.rs:14-18) only puts a fixed prefix before the message for printing. The model keeps the message, `InitError.details`.
- TasklineLib.BumpPatch, TasklineLib.BumpMinor, TasklineLib.BumpMajor: require the bumped component to be below `u32::MAX`. The `+ 1` on `u32` panics or wraps there, and that is not modelled.
- TasklineBump.NextVersion: works on unbounded numbers. The `u32` overflow of `+ 1` at `u32::MAX` is not modelled.
- TasklineBump.ParseVersionFast: accumulates `num * 10 + d` in unbounded numbers. A part above `u32::MAX` would overflow in the source, and that is not modelled.
- TasklineBump.BumpAgain: requires content without '\r'. `str::lines` removes a '\r' before a '\n', and the join does not put it back, so the read-back lines can differ from the written ones.
- Interplay.InitHeaderReadBack and related lemmas: require a codename without line breaks. A name with a '\n' splits the header into other lines.
- Characters are bytes: multi-byte UTF-8 text and `str` char-boundary panics are not modelled.
