/**
  How the three parts of Taskline read each other's output. Each tool has its
  own reader for the `@Taskline version` line: the library's
  `TasklineMetadata::parse` wants `v1.2.3` and keeps the LAST version line,
  `taskline-bump` wants `1.2.3` without the 'v' and keeps the FIRST one, and
  `taskline-init` writes whatever version string it validated, 'v' included.
*/
module Interplay {
  import opened Wrappers
  import opened Text
  import L = TasklineLib
  import B = TasklineBump
  import I = TasklineInit

  /** What the library's reader makes of a parse result. */
  function Kept(r: Result<L.Version, L.TasklineError>): Option<L.Version>
  {
    match r
    case Ok(v) => Some(v)
    case Err(_) => None
  }

  /** `taskline-init` writes the header `to_header` writes, when its version
      argument is the rendering of a version. */
  lemma InitHeaderAgrees(filename: string, v: L.Version)
    ensures I.InitHeader(filename, Some(L.Format(v))) == L.ToHeader(L.TasklineMetadata(filename, Some(v)))
    ensures I.InitHeader(filename, None) == L.ToHeader(L.TasklineMetadata(filename, None))
  {
  }

  /** The version line `taskline-init` writes holds no line break ... */
  lemma InitVersionLineIsLine(ver: string)
    requires I.Validation(ver).Ok?
    ensures '\n' !in L.VERSION_PREFIX + ver && !EndsWithCR(L.VERSION_PREFIX + ver)
  {
    I.AcceptedChars(ver);
    var line := L.VERSION_PREFIX + ver;
    assert forall j :: 0 <= j < |line| ==> line[j] in L.VERSION_PREFIX || line[j] in ver;
    assert forall j :: 0 <= j < |ver| ==> ver[j] == 'v' || ver[j] == '.' || IsDigit(ver[j]);
    assert line[|line| - 1] == ver[|ver| - 1];
  }

  /** ... and the library reads it with `Version::parse`. */
  lemma InitVersionLineReads(ver: string)
    ensures L.CodenameIn(L.VERSION_PREFIX + ver) == None
    ensures L.VersionIn(L.VERSION_PREFIX + ver) == Kept(L.Parse(ver))
  {
    var line := L.VERSION_PREFIX + ver;
    assert !L.IsCodenameLine(line) by { assert line[10] != L.CODENAME_PREFIX[10]; }
    assert line[|L.VERSION_PREFIX|..] == ver;
  }

  /** The library reads back the header `taskline-init` writes: the codename,
      and the version when `Version::parse` accepts it. */
  lemma InitHeaderReadBack(filename: string, ver: string)
    requires NoBreak(filename) && I.Validation(ver).Ok?
    ensures L.MetadataOf(I.InitHeader(filename, Some(ver))) == L.TasklineMetadata(filename, Kept(L.Parse(ver)))
  {
    InitHeaderLines(filename, ver);
    L.CodenameLineIsLine(filename);
    InitVersionLineReads(ver);
    PickInitLines(L.CodenameLine(filename), L.VERSION_PREFIX + ver, filename, Kept(L.Parse(ver)));
  }

  /** The lines of the header `taskline-init` writes with a version. */
  lemma InitHeaderLines(filename: string, ver: string)
    requires NoBreak(filename) && I.Validation(ver).Ok?
    ensures Lines(I.InitHeader(filename, Some(ver))) == [L.CodenameLine(filename), L.VERSION_PREFIX + ver, ""]
  {
    var first := L.CodenameLine(filename);
    var second := L.VERSION_PREFIX + ver;
    L.CodenameLineIsLine(filename);
    InitVersionLineIsLine(ver);
    InitHeaderShape(filename, ver);
    L.HeaderJoinSome(first, second);
  }

  lemma InitHeaderShape(filename: string, ver: string)
    ensures I.InitHeader(filename, Some(ver)) == L.CodenameLine(filename) + "\n" + (L.VERSION_PREFIX + ver) + "\n\n"
  {
    var a := L.CODENAME_PREFIX + filename + "\n";
    assert a == L.CodenameLine(filename) + "\n";
    assert a + L.VERSION_PREFIX + ver == a + (L.VERSION_PREFIX + ver);
  }

  lemma PickInitLines(first: string, second: string, c: string, v: Option<L.Version>)
    requires L.CodenameIn(first) == Some(c) && L.VersionIn(first) == None
    requires L.CodenameIn(second) == None && L.VersionIn(second) == v
    ensures L.CodenameOf([first, second, ""]) == c
    ensures L.VersionOf([first, second, ""]) == v
  {
    var ls := [first, second, ""];
    assert L.CodenameIn(ls[2]) == None && L.VersionIn(ls[2]) == None;
    L.LastPickAt(ls, L.CodenameIn, 0);
    if v.Some? {
      L.LastPickAt(ls, L.VersionIn, 1);
    } else {
      L.LastPickNone(ls, L.VersionIn);
    }
  }

  /** A version `taskline-init` accepts can still be out of `u32` range, and
      then the library reads the header it wrote as having no version. */
  lemma InitAcceptsWhatLibraryRejects()
    ensures I.Validation("v4294967296.0.0").Ok?
    ensures L.Parse("v4294967296.0.0") == Err(L.VersionError(L.MSG_MAJOR))
  {
    InitAcceptsBig();
    LibraryRejectsBig();
  }

  lemma InitAcceptsBig()
    ensures I.Validation("v4294967296.0.0").Ok?
  {
    var s := "v4294967296.0.0";
    assert I.IsVersionString(s) by {
      BigPieces();
      BigPiecesDigits();
    }
    I.ValidationAccepts(s);
  }

  lemma BigPiecesDigits()
    ensures forall j :: 0 <= j < 3 ==> ["4294967296", "0", "0"][j] != [] && AllDigits(["4294967296", "0", "0"][j])
  {
    var pieces := ["4294967296", "0", "0"];
    forall j | 0 <= j < 3 ensures pieces[j] != [] && AllDigits(pieces[j]) {
      assert forall k :: 0 <= k < |pieces[j]| ==> IsDigit(pieces[j][k]);
    }
  }

  lemma LibraryRejectsBig()
    ensures L.Parse("v4294967296.0.0") == Err(L.VersionError(L.MSG_MAJOR))
  {
    BigPieces();
    assert ParseU32("4294967296") == None by {
      DigitsValueOfBig();
      assert "4294967296"[0] != '+';
    }
  }

  lemma BigPieces()
    ensures Split("v4294967296.0.0"[1..], '.') == ["4294967296", "0", "0"]
  {
    var pieces := ["4294967296", "0", "0"];
    assert "v4294967296.0.0"[1..] == "4294967296.0.0";
    assert Join(pieces, ".") == "4294967296.0.0" by {
      JoinThree(pieces, ".");
    }
    forall j | 0 <= j < 3 ensures '.' !in pieces[j] {
      assert forall k :: 0 <= k < |pieces[j]| ==> IsDigit(pieces[j][k]);
    }
    SplitJoin(pieces, '.');
  }

  lemma DigitsValueOfBig()
    ensures DigitsValue("4294967296") == 4294967296
  {
    assert "4294967296"[..9] == "429496729";
    assert "429496729"[..8] == "42949672";
    assert "42949672"[..7] == "4294967";
    assert "4294967"[..6] == "429496";
    assert "429496"[..5] == "42949";
    assert "42949"[..4] == "4294";
    assert "4294"[..3] == "429";
    assert "429"[..2] == "42";
    assert "42"[..1] == "4";
  }

  /** `taskline-bump` never sees the version line `taskline-init` writes: the
      'v' ends its run of digits and dots before it starts. */
  lemma InitVersionInvisibleToBump(ver: string)
    requires I.Validation(ver).Ok?
    ensures B.FastVersion(L.VERSION_PREFIX + ver) == None
  {
    I.AcceptedChars(ver);
    var line := L.VERSION_PREFIX + ver;
    assert line[|L.VERSION_PREFIX|..] == ver;
    assert B.ScanRun(ver) == 0;
    assert ver[..0] == [];
    assert Split([], '.') == [[]];
  }

  /** The two readers never both accept a line: the library's wants a 'v'
      right after the prefix, and the tool's a digit or a dot. */
  lemma ReadersDisjoint(line: string)
    ensures !(B.FastVersion(line).Some? && L.VersionIn(line).Some?)
  {
    if B.FastVersion(line).Some? && !L.IsCodenameLine(line) {
      var rest := line[|L.VERSION_PREFIX|..];
      assert IsDigit(rest[0]) || rest[0] == '.';
      assert line[|L.VERSION_PREFIX|..] == rest;
    }
  }

  /** So the library never reads the line `taskline-bump` writes. */
  lemma BumpLineInvisibleToLibrary(t: B.Triple)
    ensures L.VersionIn(B.VersionLine(t)) == None
    ensures L.CodenameIn(B.VersionLine(t)) == None
  {
    B.FastVersionLine(t);
    ReadersDisjoint(B.VersionLine(t));
    assert !L.IsCodenameLine(B.VersionLine(t)) by {
      assert B.VersionLine(t)[10] != L.CODENAME_PREFIX[10];
    }
  }

  /** Bumping a file `taskline-init` wrote with a version: the bump starts
      from 0.0.0 and inserts its own line after the codename, keeping the
      init line ... */
  lemma BumpAfterInit(filename: string, ver: string, kind: B.BumpType)
    requires NoBreak(filename) && I.Validation(ver).Ok?
    ensures var ls := Lines(I.InitHeader(filename, Some(ver)));
      && B.CurrentVersion(ls) == (0, 0, 0)
      && B.BumpedLines(ls, kind) ==
        [L.CodenameLine(filename), B.VersionLine(B.NextVersion(kind, (0, 0, 0))), L.VERSION_PREFIX + ver, ""]
  {
    InitHeaderLines(filename, ver);
    BumpInitLines(filename, ver, kind);
  }

  lemma BumpInitLines(filename: string, ver: string, kind: B.BumpType)
    requires I.Validation(ver).Ok?
    ensures var ls := [L.CodenameLine(filename), L.VERSION_PREFIX + ver, ""];
      && B.CurrentVersion(ls) == (0, 0, 0)
      && B.BumpedLines(ls, kind) == [ls[0], B.VersionLine(B.NextVersion(kind, (0, 0, 0))), ls[1], ls[2]]
  {
    var ls := [L.CodenameLine(filename), L.VERSION_PREFIX + ver, ""];
    InitLinesHaveNoBumpVersion(filename, ver);
    BumpWithoutVersionLine(ls, kind);
    var added := B.VersionLine(B.NextVersion(kind, (0, 0, 0)));
    assert ls[..1] + [added] + ls[1..] == [ls[0], added, ls[1], ls[2]];
  }

  /** With no version line for the bump tool, it starts from 0.0.0 and puts
      its line second. */
  lemma BumpWithoutVersionLine(ls: seq<string>, kind: B.BumpType)
    requires |ls| >= 2 && forall j :: 0 <= j < |ls| ==> B.FastVersion(ls[j]).None?
    ensures B.CurrentVersion(ls) == (0, 0, 0)
    ensures B.BumpedLines(ls, kind) == ls[..1] + [B.VersionLine(B.NextVersion(kind, (0, 0, 0)))] + ls[1..]
  {
    B.FirstVersionNone(ls);
  }

  /** ... which the library goes on reading, last match winning, while it
      ignores the line the bump wrote. */
  lemma LibraryAfterBumpAfterInit(filename: string, ver: string, kind: B.BumpType)
    requires NoBreak(filename) && I.Validation(ver).Ok?
    ensures L.MetadataOf(Join(B.BumpedLines(Lines(I.InitHeader(filename, Some(ver))), kind), "\n"))
      == L.TasklineMetadata(filename, Kept(L.Parse(ver)))
  {
    var first := L.CodenameLine(filename);
    var second := L.VERSION_PREFIX + ver;
    var t := B.NextVersion(kind, (0, 0, 0));
    var added := B.VersionLine(t);
    assert B.BumpedLines(Lines(I.InitHeader(filename, Some(ver))), kind) == [first, added, second, ""] by {
      BumpAfterInit(filename, ver, kind);
    }
    assert Lines(Join([first, added, second, ""], "\n")) == [first, added, second] by {
      L.CodenameLineIsLine(filename);
      InitVersionLineIsLine(ver);
      B.VersionLineIsLine(t);
      ThreeLines(first, added, second);
    }
    L.CodenameLineIsLine(filename);
    InitVersionLineReads(ver);
    BumpLineInvisibleToLibrary(t);
    PickBumpedInitLines(first, added, second, filename, Kept(L.Parse(ver)));
  }

  /** Three lines and an empty last one, joined, split back into the three. */
  lemma ThreeLines(a: string, b: string, c: string)
    requires '\n' !in a && !EndsWithCR(a)
    requires '\n' !in b && !EndsWithCR(b)
    requires '\n' !in c && !EndsWithCR(c)
    ensures Lines(Join([a, b, c, ""], "\n")) == [a, b, c]
  {
    var ls := [a, b, c, ""];
    assert !EndsWithCR(ls[3]);
    LinesOfJoin(ls);
    assert ls[..3] == [a, b, c];
  }

  lemma InitLinesHaveNoBumpVersion(filename: string, ver: string)
    requires I.Validation(ver).Ok?
    ensures forall j :: 0 <= j < 3 ==>
      B.FastVersion([L.CodenameLine(filename), L.VERSION_PREFIX + ver, ""][j]).None?
  {
    var first := L.CodenameLine(filename);
    assert !(L.VERSION_PREFIX <= first) by { assert first[10] != L.VERSION_PREFIX[10]; }
    InitVersionInvisibleToBump(ver);
  }

  lemma PickBumpedInitLines(first: string, added: string, second: string, c: string, v: Option<L.Version>)
    requires L.CodenameIn(first) == Some(c) && L.VersionIn(first) == None
    requires L.CodenameIn(added) == None && L.VersionIn(added) == None
    requires L.CodenameIn(second) == None && L.VersionIn(second) == v
    requires Lines(Join([first, added, second, ""], "\n")) == [first, added, second]
    ensures L.MetadataOf(Join([first, added, second, ""], "\n")) == L.TasklineMetadata(c, v)
  {
    var ls := [first, added, second];
    L.LastPickAt(ls, L.CodenameIn, 0);
    if v.Some? {
      L.LastPickAt(ls, L.VersionIn, 2);
    } else {
      L.LastPickNone(ls, L.VersionIn);
    }
  }

  /** First match against last match: with two version lines, the bump tool
      reads the first and the library the last. */
  lemma ScanOrder(a: B.Triple, b: B.Triple, v: L.Version, w: L.Version)
    ensures B.CurrentVersion([B.VersionLine(a), B.VersionLine(b)]) == a
    ensures L.VersionOf([L.VersionHeaderLine(v), L.VersionHeaderLine(w)]) == Some(w)
  {
    B.FastVersionLine(a);
    B.FirstVersionAt([B.VersionLine(a), B.VersionLine(b)], 0, a);
    L.VersionHeaderLineGivesVersion(w);
    L.LastPickAt([L.VersionHeaderLine(v), L.VersionHeaderLine(w)], L.VersionIn, 1);
  }

  /** The bump tool's arithmetic is the library's `bump_*` wherever the
      library's is defined. */
  lemma NextVersionAgrees(v: L.Version)
    ensures v.patch < U32_MAX ==>
      B.NextVersion(B.Patch, (v.major, v.minor, v.patch)) ==
      (L.BumpPatch(v).major, L.BumpPatch(v).minor, L.BumpPatch(v).patch)
    ensures v.minor < U32_MAX ==>
      B.NextVersion(B.Minor, (v.major, v.minor, v.patch)) ==
      (L.BumpMinor(v).major, L.BumpMinor(v).minor, L.BumpMinor(v).patch)
    ensures v.major < U32_MAX ==>
      B.NextVersion(B.Major, (v.major, v.minor, v.patch)) ==
      (L.BumpMajor(v).major, L.BumpMajor(v).minor, L.BumpMajor(v).patch)
  {
  }

  /** A file `taskline-init` created keeps its `.tskln` extension through a
      bump: the new name is the old stem, `_vM.m.p`, and `.tskln`. */
  lemma InitNameBumps(filename: string, ver: Option<string>, t: B.Triple)
    requires filename != [] && '/' !in filename
    requires ver.Some? ==> '/' !in ver.value
    ensures B.IsFileName(I.TargetFileName(filename, ver))
    ensures B.RenamedFile(I.TargetFileName(filename, ver), t) ==
      TargetStem(filename, ver) + "_v" + DottedTriple(t.0, t.1, t.2) + ".tskln"
  {
    TargetNameSplits(filename, ver);
  }

  /** The stem of the file name `taskline-init` creates. */
  function TargetStem(filename: string, ver: Option<string>): string
  {
    match ver
    case Some(v) => filename + "." + v
    case None => filename
  }

  lemma TargetNameSplits(filename: string, ver: Option<string>)
    requires filename != [] && '/' !in filename
    requires ver.Some? ==> '/' !in ver.value
    ensures B.IsFileName(I.TargetFileName(filename, ver))
    ensures B.StemAndExtension(I.TargetFileName(filename, ver)) == (TargetStem(filename, ver), Some(L.TASKLINE_EXTENSION))
  {
    var stem := TargetStem(filename, ver);
    var name := I.TargetFileName(filename, ver);
    assert name == stem + "." + "tskln";
    assert '/' !in name by {
      assert forall j :: 0 <= j < |name| ==> name[j] in stem || name[j] in ".tskln";
      if ver.Some? {
        assert forall j :: 0 <= j < |stem| ==> stem[j] in filename || stem[j] == '.' || stem[j] in ver.value;
      }
    }
    B.LastDotAfter(stem, "tskln");
    assert name[..|stem|] == stem;
    assert name[|stem| + 1..] == "tskln";
  }
}
