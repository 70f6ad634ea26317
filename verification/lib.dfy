/**
  The shared library of the Taskline tools (src/lib.rs): the `Version` value
  type with its parser, its `v<major>.<minor>.<patch>` rendering and its
  three bumps, and `TasklineMetadata`, the codename/version header of a
  `.tskln` script, read from file content and rendered back.
*/
module TasklineLib {
  import opened Wrappers
  import opened Text

  /** `Version`: three `u32` components. */
  datatype Version = Version(major: u32, minor: u32, patch: u32)

  /** `TasklineError`; only the version variant is produced by the code modelled here. */
  datatype TasklineError = VersionError(msg: string) | FileError(msg: string) | ParseError(msg: string)

  const MSG_NO_V := "Version must start with 'v'"
  const MSG_FORMAT := "Version must have format v1.2.3"
  const MSG_MAJOR := "Invalid major version"
  const MSG_MINOR := "Invalid minor version"
  const MSG_PATCH := "Invalid patch version"

  /** The derived `Ord` of `Version`: lexicographic on (major, minor, patch). */
  predicate Less(a: Version, b: Version)
  {
    a.major < b.major
    || (a.major == b.major && a.minor < b.minor)
    || (a.major == b.major && a.minor == b.minor && a.patch < b.patch)
  }

  /** `Version::parse`. */
  function Parse(s: string): (r: Result<Version, TasklineError>)
    ensures r.Ok? ==> |s| >= 1 && s[0] == 'v'
    ensures r == Err(VersionError(MSG_NO_V)) <==> s == [] || s[0] != 'v'
  {
    if s == [] || s[0] != 'v' then Err(VersionError(MSG_NO_V))
    else
      var parts := Split(s[1..], '.');
      if |parts| != 3 then Err(VersionError(MSG_FORMAT))
      else match (ParseU32(parts[0]), ParseU32(parts[1]), ParseU32(parts[2]))
        case (None, _, _) => Err(VersionError(MSG_MAJOR))
        case (Some(_), None, _) => Err(VersionError(MSG_MINOR))
        case (Some(_), Some(_), None) => Err(VersionError(MSG_PATCH))
        case (Some(a), Some(b), Some(c)) => Ok(Version(a, b, c))
  }

  /** `Display for Version`. */
  function Format(v: Version): string
  {
    "v" + DottedTriple(v.major, v.minor, v.patch)
  }

  /** `Version::parse` accepts exactly 'v' followed by three `u32` literals
      separated by '.', and the version it returns carries those three numbers. */
  lemma ParseAccepts(s: string, v: Version)
    ensures Parse(s) == Ok(v) <==>
      exists x, y, z :: s == "v" + x + "." + y + "." + z
        && ParseU32(x) == Some(v.major) && ParseU32(y) == Some(v.minor) && ParseU32(z) == Some(v.patch)
  {
    if Parse(s) == Ok(v) {
      ParseAcceptedPieces(s, v);
    }
    if exists x, y, z :: s == "v" + x + "." + y + "." + z
        && ParseU32(x) == Some(v.major) && ParseU32(y) == Some(v.minor) && ParseU32(z) == Some(v.patch)
    {
      var x, y, z :| s == "v" + x + "." + y + "." + z
        && ParseU32(x) == Some(v.major) && ParseU32(y) == Some(v.minor) && ParseU32(z) == Some(v.patch);
      ParseComposed(x, y, z);
    }
  }

  /** An accepted string is 'v' and its three split pieces joined with '.'. */
  lemma ParseAcceptedPieces(s: string, v: Version)
    requires Parse(s) == Ok(v)
    ensures var parts := Split(s[1..], '.');
      |parts| == 3 && s == "v" + parts[0] + "." + parts[1] + "." + parts[2]
      && ParseU32(parts[0]) == Some(v.major) && ParseU32(parts[1]) == Some(v.minor)
      && ParseU32(parts[2]) == Some(v.patch)
  {
    var parts := Split(s[1..], '.');
    JoinSplit(s[1..], '.');
    JoinThree(parts, ".");
    BehindV(s, parts[0], parts[1], parts[2]);
  }

  /** A string that starts with 'v' is 'v' and its remainder. */
  lemma BehindV(s: string, a: string, b: string, c: string)
    requires |s| >= 1 && s[0] == 'v' && s[1..] == a + "." + b + "." + c
    ensures s == "v" + a + "." + b + "." + c
  {
    assert s == [s[0]] + s[1..];
  }

  /** Three `u32` literals joined with '.' behind a 'v' parse to their values. */
  lemma ParseComposed(x: string, y: string, z: string)
    requires ParseU32(x).Some? && ParseU32(y).Some? && ParseU32(z).Some?
    ensures Parse("v" + x + "." + y + "." + z)
      == Ok(Version(ParseU32(x).value, ParseU32(y).value, ParseU32(z).value))
  {
    var s := "v" + x + "." + y + "." + z;
    assert Split(s[1..], '.') == [x, y, z] by {
      assert s[1..] == x + "." + y + "." + z;
      NoDotInU32(x);
      NoDotInU32(y);
      NoDotInU32(z);
      SplitComposed(x, y, z);
    }
  }

  /** Nothing `u32::from_str` accepts holds a '.'. */
  lemma NoDotInU32(x: string)
    requires ParseU32(x).Some?
    ensures '.' !in x
  {
    if '.' in x {
      ParseU32Rejects(x);
    }
  }

  /** Three dot-free pieces joined with '.' split back into those pieces. */
  lemma SplitComposed(x: string, y: string, z: string)
    requires '.' !in x && '.' !in y && '.' !in z
    ensures Split(x + "." + y + "." + z, '.') == [x, y, z]
  {
    JoinThree([x, y, z], ".");
    SplitJoin([x, y, z], '.');
  }

  /** Round trip: the rendering of every version parses back to it. */
  lemma {:induction false} ParseFormat(v: Version)
    ensures Parse(Format(v)) == Ok(v)
  {
    var s := Format(v);
    assert s[1..] == DottedTriple(v.major, v.minor, v.patch);
    SplitDottedTriple(v.major, v.minor, v.patch);
    ParseU32Decimal(v.major);
    ParseU32Decimal(v.minor);
    ParseU32Decimal(v.patch);
  }

  /** The rejections the library's tests name: no 'v', a missing segment, an extra one. */
  lemma ParseRejectsNoV()
    ensures Parse("1.2.3") == Err(VersionError(MSG_NO_V))
  {
  }

  lemma ParseRejectsTwoSegments()
    ensures Parse("v1.2") == Err(VersionError(MSG_FORMAT))
  {
    var ps := ["1", "2"];
    assert Join(ps, ".") == "1.2" by { assert ps[..1] == ["1"]; }
    SplitJoin(ps, '.');
    assert "v1.2"[1..] == "1.2";
  }

  lemma ParseRejectsFourSegments()
    ensures Parse("v1.2.3.4") == Err(VersionError(MSG_FORMAT))
  {
    var ps := ["1", "2", "3", "4"];
    assert Join(ps, ".") == "1.2.3.4" by {
      assert ps[..3][..2][..1] == ["1"];
      assert Join(ps[..3][..2], ".") == "1.2";
      assert Join(ps[..3], ".") == "1.2.3";
    }
    SplitJoin(ps, '.');
    assert "v1.2.3.4"[1..] == "1.2.3.4";
  }

  /** Three segments, the first not a number: the major version is invalid. */
  lemma ParseRejectsNonNumeric()
    ensures Parse("va.b.c") == Err(VersionError(MSG_MAJOR))
  {
    assert "va.b.c"[1..] == "a" + "." + "b" + "." + "c";
    SplitComposed("a", "b", "c");
    assert !IsDigit('a');
  }

  /** `bump_patch`; the source's `+ 1` on `u32` is only defined below `u32::MAX`. */
  function BumpPatch(v: Version): (r: Version)
    requires v.patch < U32_MAX
    ensures r.major == v.major && r.minor == v.minor && r.patch == v.patch + 1
    ensures Less(v, r)
  {
    Version(v.major, v.minor, v.patch + 1)
  }

  /** `bump_minor`: increments minor, resets patch. */
  function BumpMinor(v: Version): (r: Version)
    requires v.minor < U32_MAX
    ensures r.major == v.major && r.minor == v.minor + 1 && r.patch == 0
    ensures Less(v, r)
  {
    Version(v.major, v.minor + 1, 0)
  }

  /** `bump_major`: increments major, resets minor and patch. */
  function BumpMajor(v: Version): (r: Version)
    requires v.major < U32_MAX
    ensures r.major == v.major + 1 && r.minor == 0 && r.patch == 0
    ensures Less(v, r)
  {
    Version(v.major + 1, 0, 0)
  }

  /** The library's bump tests: 1.2.3 bumps to 1.2.4, 1.3.0 and 2.0.0. */
  lemma BumpExamples()
    ensures BumpPatch(Version(1, 2, 3)) == Version(1, 2, 4)
    ensures BumpMinor(Version(1, 2, 3)) == Version(1, 3, 0)
    ensures BumpMajor(Version(1, 2, 3)) == Version(2, 0, 0)
  {
  }

  /** The library's shared constants. */
  const TASKLINE_EXTENSION := "tskln"
  const DEFAULT_VERSION := "v0.0.1"

  /** The default version is a version: it parses to 0.0.1 (also one of the
      library's parse tests). */
  lemma DefaultVersionParses()
    ensures Parse(DEFAULT_VERSION) == Ok(Version(0, 0, 1))
  {
    assert Format(Version(0, 0, 1)) == DEFAULT_VERSION by {
      assert NatToString(0) == "0" && NatToString(1) == "1";
    }
    ParseFormat(Version(0, 0, 1));
  }

  /** `TasklineMetadata`. */
  datatype TasklineMetadata = TasklineMetadata(codename: string, version: Option<Version>)

  const CODENAME_PREFIX := "@Taskline codename "
  const VERSION_PREFIX := "@Taskline version "

  predicate IsCodenameLine(l: string) { CODENAME_PREFIX <= l }

  predicate IsVersionLine(l: string) { VERSION_PREFIX <= l }

  /** What one line contributes to the codename: the text after the prefix. */
  function CodenameIn(l: string): Option<string>
  {
    if IsCodenameLine(l) then Some(l[|CODENAME_PREFIX|..]) else None
  }

  /** What one line contributes to the version: a line that is not a codename
      line, is a version line and whose remainder parses; any other line,
      including one whose version does not parse, contributes nothing. */
  function VersionIn(l: string): Option<Version>
  {
    if IsCodenameLine(l) then None
    else if IsVersionLine(l) then
      match Parse(l[|VERSION_PREFIX|..])
      case Ok(v) => Some(v)
      case Err(_) => None
    else None
  }

  /** The contribution of the LAST line of `lines` that contributes anything. */
  function LastPick<T>(lines: seq<string>, pick: string -> Option<T>): Option<T>
    decreases |lines|
  {
    if lines == [] then None
    else
      var found := pick(lines[|lines| - 1]);
      if found.Some? then found else LastPick(lines[..|lines| - 1], pick)
  }

  /** Last match wins: the result is the contribution of the last contributing line ... */
  lemma {:induction false} LastPickAt<T>(lines: seq<string>, pick: string -> Option<T>, k: nat)
    requires k < |lines| && pick(lines[k]).Some?
    requires forall j :: k < j < |lines| ==> pick(lines[j]).None?
    ensures LastPick(lines, pick) == pick(lines[k])
    decreases |lines|
  {
    var n := |lines|;
    if k < n - 1 {
      var init := lines[..n - 1];
      assert init[k] == lines[k];
      assert forall j :: k < j < n - 1 ==> init[j] == lines[j];
      LastPickAt(init, pick, k);
    }
  }

  /** ... and None when no line contributes. */
  lemma {:induction false} LastPickNone<T>(lines: seq<string>, pick: string -> Option<T>)
    requires forall k :: 0 <= k < |lines| ==> pick(lines[k]).None?
    ensures LastPick(lines, pick) == None
    decreases |lines|
  {
    if lines != [] {
      var init := lines[..|lines| - 1];
      assert forall k :: 0 <= k < |init| ==> init[k] == lines[k];
      LastPickNone(init, pick);
    }
  }

  function CodenameOf(lines: seq<string>): string
  {
    match LastPick(lines, CodenameIn)
    case Some(c) => c
    case None => ""
  }

  function VersionOf(lines: seq<string>): Option<Version>
  {
    LastPick(lines, VersionIn)
  }

  /** What `TasklineMetadata::parse` returns for `content`. */
  function MetadataOf(content: string): TasklineMetadata
  {
    TasklineMetadata(CodenameOf(Lines(content)), VersionOf(Lines(content)))
  }

  /** `TasklineMetadata::parse`: one pass over the lines, each match
      overwriting the field it sets, so the last match wins. */
  method ParseMetadata(content: string) returns (m: TasklineMetadata)
    ensures m == MetadataOf(content)
  {
    var codename: string := "";
    var version: Option<Version> := None;
    var lines := Lines(content);
    for i := 0 to |lines|
      invariant codename == CodenameOf(lines[..i])
      invariant version == VersionOf(lines[..i])
    {
      var line := lines[i];
      assert lines[..i + 1][..i] == lines[..i];
      if IsCodenameLine(line) {
        codename := line[|CODENAME_PREFIX|..];
      } else if IsVersionLine(line) {
        var parsed := Parse(line[|VERSION_PREFIX|..]);
        if parsed.Ok? {
          version := Some(parsed.value);
        }
      }
    }
    assert lines[..|lines|] == lines;
    m := TasklineMetadata(codename, version);
  }

  /** `TasklineMetadata::to_header`. */
  function ToHeader(m: TasklineMetadata): string
  {
    match m.version
    case Some(v) => CodenameLine(m.codename) + "\n" + VersionHeaderLine(v) + "\n\n"
    case None => CodenameLine(m.codename) + "\n\n"
  }

  /** A rendered version holds only 'v', digits and dots, and ends in a digit. */
  lemma FormatChars(v: Version)
    ensures forall j :: 0 <= j < |Format(v)| ==> Format(v)[j] == 'v' || Format(v)[j] == '.' || IsDigit(Format(v)[j])
    ensures IsDigit(Format(v)[|Format(v)| - 1])
  {
    var t := Format(v);
    var p := NatToString(v.patch);
    assert t == "v" + NatToString(v.major) + "." + NatToString(v.minor) + "." + p;
    assert t[|t| - 1] == p[|p| - 1];
  }

  /** The line `to_header` writes first. */
  function CodenameLine(codename: string): string { CODENAME_PREFIX + codename }

  lemma CodenameLineIsLine(codename: string)
    requires NoBreak(codename)
    ensures '\n' !in CodenameLine(codename) && !EndsWithCR(CodenameLine(codename))
    ensures CodenameIn(CodenameLine(codename)) == Some(codename)
    ensures VersionIn(CodenameLine(codename)) == None
  {
    var first := CodenameLine(codename);
    assert forall j :: 0 <= j < |first| ==> first[j] in CODENAME_PREFIX || first[j] in codename;
    assert first[|CODENAME_PREFIX|..] == codename;
  }

  /** The line `to_header` writes for a version. */
  function VersionHeaderLine(v: Version): string { VERSION_PREFIX + Format(v) }

  lemma VersionHeaderLineIsLine(v: Version)
    ensures '\n' !in VersionHeaderLine(v) && !EndsWithCR(VersionHeaderLine(v))
  {
    var second := VersionHeaderLine(v);
    FormatChars(v);
    assert forall j :: 0 <= j < |second| ==> second[j] in VERSION_PREFIX || second[j] in Format(v);
  }

  lemma VersionHeaderLineGivesVersion(v: Version)
    ensures CodenameIn(VersionHeaderLine(v)) == None
    ensures VersionIn(VersionHeaderLine(v)) == Some(v)
  {
    var second := VersionHeaderLine(v);
    assert second[|VERSION_PREFIX|..] == Format(v);
    assert !IsCodenameLine(second) by { assert second[10] != CODENAME_PREFIX[10]; }
    ParseFormat(v);
  }

  /** The lines of a rendered header: the codename line, the version line when
      there is a version, and one empty line. */
  lemma HeaderLines(m: TasklineMetadata)
    requires NoBreak(m.codename)
    ensures Lines(ToHeader(m)) == match m.version
      case Some(v) => [CodenameLine(m.codename), VersionHeaderLine(v), ""]
      case None => [CodenameLine(m.codename), ""]
  {
    CodenameLineIsLine(m.codename);
    match m.version
    case Some(v) =>
      VersionHeaderLineIsLine(v);
      HeaderJoinSome(CodenameLine(m.codename), VersionHeaderLine(v));
    case None =>
      HeaderJoinNone(CodenameLine(m.codename));
  }

  lemma HeaderJoinSome(first: string, second: string)
    requires '\n' !in first && !EndsWithCR(first)
    requires '\n' !in second && !EndsWithCR(second)
    ensures Lines(first + "\n" + second + "\n\n") == [first, second, ""]
  {
    var ls := [first, second, "", ""];
    assert ls[..3][..2][..1] == [first];
    assert Join(ls[..3][..2], "\n") == first + "\n" + second;
    assert Join(ls[..3], "\n") == first + "\n" + second + "\n";
    assert Join(ls, "\n") == first + "\n" + second + "\n\n";
    LinesOfJoin(ls);
    assert ls[..3] == [first, second, ""];
  }

  lemma HeaderJoinNone(first: string)
    requires '\n' !in first && !EndsWithCR(first)
    ensures Lines(first + "\n\n") == [first, ""]
  {
    var ls := [first, "", ""];
    assert ls[..2][..1] == [first];
    assert Join(ls[..2], "\n") == first + "\n";
    assert Join(ls, "\n") == first + "\n\n";
    LinesOfJoin(ls);
    assert ls[..2] == [first, ""];
  }

  /** Round trip: parsing a rendered header gives back the metadata, provided
      the codename holds no line break. */
  lemma ParseToHeader(m: TasklineMetadata)
    requires NoBreak(m.codename)
    ensures MetadataOf(ToHeader(m)) == m
  {
    HeaderLines(m);
    CodenameLineIsLine(m.codename);
    match m.version
    case Some(v) =>
      VersionHeaderLineGivesVersion(v);
      PickThree(CodenameLine(m.codename), VersionHeaderLine(v), m.codename, v);
    case None =>
      PickTwo(CodenameLine(m.codename), m.codename);
  }

  lemma PickThree(first: string, second: string, c: string, v: Version)
    requires CodenameIn(first) == Some(c) && VersionIn(first) == None
    requires CodenameIn(second) == None && VersionIn(second) == Some(v)
    ensures CodenameOf([first, second, ""]) == c
    ensures VersionOf([first, second, ""]) == Some(v)
  {
    var ls := [first, second, ""];
    assert CodenameIn(ls[2]) == None && VersionIn(ls[2]) == None;
    LastPickAt(ls, CodenameIn, 0);
    LastPickAt(ls, VersionIn, 1);
  }

  lemma PickTwo(first: string, c: string)
    requires CodenameIn(first) == Some(c) && VersionIn(first) == None
    ensures CodenameOf([first, ""]) == c
    ensures VersionOf([first, ""]) == None
  {
    var ls := [first, ""];
    assert CodenameIn(ls[1]) == None && VersionIn(ls[1]) == None;
    LastPickAt(ls, CodenameIn, 0);
    LastPickNone(ls, VersionIn);
  }

  /** Content after a rendered header leaves its metadata intact, provided
      the content is one line that sets neither field. */
  lemma HeaderThenBody(c: string, v: Version, body: string)
    requires NoBreak(c) && NoBreak(body)
    requires CodenameIn(body) == None && VersionIn(body) == None
    ensures MetadataOf(ToHeader(TasklineMetadata(c, Some(v))) + body) == TasklineMetadata(c, Some(v))
  {
    if body == [] {
      assert ToHeader(TasklineMetadata(c, Some(v))) + body == ToHeader(TasklineMetadata(c, Some(v)));
      ParseToHeader(TasklineMetadata(c, Some(v)));
    } else {
      var first := CodenameLine(c);
      var second := VersionHeaderLine(v);
      CodenameLineIsLine(c);
      VersionHeaderLineIsLine(v);
      VersionHeaderLineGivesVersion(v);
      HeaderBodyLines(first, second, body);
      PickFour(first, second, body, c, v);
    }
  }

  lemma HeaderBodyLines(first: string, second: string, body: string)
    requires '\n' !in first && !EndsWithCR(first)
    requires '\n' !in second && !EndsWithCR(second)
    requires NoBreak(body) && body != []
    ensures Lines(first + "\n" + second + "\n\n" + body) == [first, second, "", body]
  {
    var ls := [first, second, "", body];
    assert ls[..3][..2][..1] == [first];
    assert Join(ls[..3][..2], "\n") == first + "\n" + second;
    assert Join(ls[..3], "\n") == first + "\n" + second + "\n";
    assert Join(ls, "\n") == first + "\n" + second + "\n\n" + body;
    assert !EndsWithCR(body) by { assert body[|body| - 1] in body; }
    LinesOfJoin(ls);
  }

  lemma PickFour(first: string, second: string, body: string, c: string, v: Version)
    requires CodenameIn(first) == Some(c) && VersionIn(first) == None
    requires CodenameIn(second) == None && VersionIn(second) == Some(v)
    requires CodenameIn(body) == None && VersionIn(body) == None
    ensures CodenameOf([first, second, "", body]) == c
    ensures VersionOf([first, second, "", body]) == Some(v)
  {
    var ls := [first, second, "", body];
    assert CodenameOf(ls) == c by {
      assert CodenameIn(ls[1]) == None && CodenameIn(ls[2]) == None && CodenameIn(ls[3]) == None;
      LastPickAt(ls, CodenameIn, 0);
    }
    assert VersionOf(ls) == Some(v) by {
      assert VersionIn(ls[2]) == None && VersionIn(ls[3]) == None;
      LastPickAt(ls, VersionIn, 1);
    }
  }

  /** The library's metadata test: a header followed by a comment line (the
      test's content, written here line by line). */
  lemma MetadataExample()
    ensures MetadataOf("@Taskline codename test-script" + "\n" + "@Taskline version v1.2.3" + "\n\n" + "// Content")
      == TasklineMetadata("test-script", Some(Version(1, 2, 3)))
  {
    ExampleText();
    ExampleBody();
    HeaderThenBody("test-script", Version(1, 2, 3), "// Content");
  }

  lemma ExampleText()
    ensures CodenameLine("test-script") == "@Taskline codename test-script"
    ensures VersionHeaderLine(Version(1, 2, 3)) == "@Taskline version v1.2.3"
  {
    assert Format(Version(1, 2, 3)) == "v1.2.3" by {
      assert NatToString(1) == "1" && NatToString(2) == "2" && NatToString(3) == "3";
    }
  }

  lemma ExampleBody()
    ensures NoBreak("test-script") && NoBreak("// Content")
    ensures CodenameIn("// Content") == None && VersionIn("// Content") == None
  {
    var body := "// Content";
    assert !IsCodenameLine(body) && !IsVersionLine(body) by { assert body[0] != '@'; }
  }
}
