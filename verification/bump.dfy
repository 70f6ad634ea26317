/**
  The `taskline-bump` tool (taskline-bump/src/main.rs): the bump tag parser,
  its own byte-level reader for `@Taskline version M.m.p` lines, and the
  in-memory rewrite `main` performs between reading and writing the file:
  find the first version line, bump the version, replace or insert the line,
  join the lines, and name the renamed file.
*/
module TasklineBump {
  import opened Wrappers
  import opened Text
  import L = TasklineLib

  /** `BumpType`. */
  datatype BumpType = Patch | Minor | Major

  /** A version as the tool holds it, `(major, minor, patch)`. */
  type Triple = (nat, nat, nat)

  /** `BumpType::from_str_fast`: exact, case-sensitive tags. */
  function FromStrFast(s: string): Option<BumpType>
  {
    if s == "..x" then Some(Patch)
    else if s == ".x." then Some(Minor)
    else if s == "x.." then Some(Major)
    else None
  }

  /** Which component a bump increments: 0 for major, 1 for minor, 2 for patch. */
  function Slot(k: BumpType): nat
  {
    match k
    case Major => 0
    case Minor => 1
    case Patch => 2
  }

  /** A tag is three characters, all '.' except an 'x' in the slot of the
      component to increment. */
  predicate MarksSlot(s: string, slot: nat)
  {
    |s| == 3 && forall i :: 0 <= i < 3 ==> s[i] == (if i == slot then 'x' else '.')
  }

  /** `from_str_fast` accepts exactly the tags that mark a slot, and reads the
      bump kind off the position of the 'x'; every other string is None. */
  lemma FromStrFastMarksSlot(s: string, k: BumpType)
    ensures FromStrFast(s) == Some(k) <==> MarksSlot(s, Slot(k))
  {
    if MarksSlot(s, Slot(k)) {
      match k
      case Major => assert s == "x..";
      case Minor => assert s == ".x.";
      case Patch => assert s == "..x";
    }
  }

  lemma FromStrFastRejects(s: string)
    ensures FromStrFast(s) == None <==> !MarksSlot(s, 0) && !MarksSlot(s, 1) && !MarksSlot(s, 2)
  {
    FromStrFastMarksSlot(s, Major);
    FromStrFastMarksSlot(s, Minor);
    FromStrFastMarksSlot(s, Patch);
  }

  /** The tool's tests: lower case only, and no other pattern is a tag. */
  lemma FromStrFastExamples()
    ensures FromStrFast("..X") == None && FromStrFast("x.x") == None
    ensures FromStrFast("...") == None && FromStrFast("") == None && FromStrFast("xxx") == None
  {
  }

  /** The lexicographic order on versions. */
  predicate TripleLess(a: Triple, b: Triple)
  {
    a.0 < b.0 || (a.0 == b.0 && a.1 < b.1) || (a.0 == b.0 && a.1 == b.1 && a.2 < b.2)
  }

  /** Component `i` of a version: 0 is major, 1 minor, 2 patch. */
  function Component(t: Triple, i: nat): nat
    requires i < 3
  {
    if i == 0 then t.0 else if i == 1 then t.1 else t.2
  }

  /** The bump `main` computes (lines 106-110): the components above the slot
      are kept, the slot is incremented, the components below it are reset,
      and the result is strictly greater. */
  function NextVersion(kind: BumpType, t: Triple): (r: Triple)
    ensures forall i :: 0 <= i < Slot(kind) ==> Component(r, i) == Component(t, i)
    ensures Component(r, Slot(kind)) == Component(t, Slot(kind)) + 1
    ensures forall i :: Slot(kind) < i < 3 ==> Component(r, i) == 0
    ensures TripleLess(t, r)
  {
    match kind
    case Patch => (t.0, t.1, t.2 + 1)
    case Minor => (t.0, t.1 + 1, 0)
    case Major => (t.0 + 1, 0, 0)
  }

  /** Length of the longest prefix of `t` made of digits and dots. */
  function ScanRun(t: string): (r: nat)
    ensures r <= |t|
    ensures forall j :: 0 <= j < r ==> IsDigit(t[j]) || t[j] == '.'
    ensures r < |t| ==> !(IsDigit(t[r]) || t[r] == '.')
    decreases |t|
  {
    if t == [] || !(IsDigit(t[0]) || t[0] == '.') then 0 else 1 + ScanRun(t[1..])
  }

  /** What `parse_version_fast` returns, stated without its loop: after the
      prefix, take the longest run of digits and dots; the line is a version
      line when that run holds exactly two dots, and each of the three pieces
      reads as a decimal number (an empty piece as 0). There is no 'v'. */
  function FastVersion(line: string): Option<Triple>
  {
    if |line| < |L.VERSION_PREFIX| + 5 || !(L.VERSION_PREFIX <= line) then None
    else
      var rest := line[|L.VERSION_PREFIX|..];
      var run := rest[..ScanRun(rest)];
      var pieces := Split(run, '.');
      if |pieces| != 3 then None
      else
        SplitDigits(run, '.');
        Some((DigitsValue(pieces[0]), DigitsValue(pieces[1]), DigitsValue(pieces[2])))
  }

  /** `parse_version_fast`: one pass over the bytes after the prefix, filling
      `parts`, counting parts and accumulating `num`. */
  method ParseVersionFast(line: string) returns (r: Option<Triple>)
    ensures r == FastVersion(line)
  {
    if |line| < |L.VERSION_PREFIX| + 5 {
      return None;
    }
    if !(L.VERSION_PREFIX <= line) {
      return None;
    }
    var rest := line[|L.VERSION_PREFIX|..];
    var parts := new nat[3](_ => 0);
    var partIdx: nat := 0;
    var num: nat := 0;
    var i := 0;
    while i < |rest|
      invariant 0 <= i <= |rest| && partIdx <= 2
      invariant forall j :: 0 <= j < i ==> IsDigit(rest[j]) || rest[j] == '.'
      invariant parts[..partIdx] == Tally(rest[..i]).0
      invariant num == Tally(rest[..i]).1
    {
      var b := rest[i];
      assert rest[..i + 1][..i] == rest[..i];
      if IsDigit(b) {
        num := num * 10 + DigitValue(b);
      } else if b == '.' {
        if partIdx >= 2 {
          ThirdDot(line, rest, i + 1);
          return None;
        }
        parts[partIdx] := num;
        partIdx := partIdx + 1;
        num := 0;
      } else {
        break;
      }
      i := i + 1;
    }
    TallyGivesFastVersion(line, rest, i);
    if partIdx == 2 {
      parts[2] := num;
      r := Some((parts[0], parts[1], parts[2]));
    } else {
      r := None;
    }
  }

  /** The state the loop of `parse_version_fast` is in after reading `t`: the
      values of the parts closed by a dot, and the value of the open part. */
  function Tally(t: string): (seq<nat>, nat)
    requires forall j :: 0 <= j < |t| ==> IsDigit(t[j]) || t[j] == '.'
    decreases |t|
  {
    if t == [] then ([], 0)
    else
      var (closed, num) := Tally(t[..|t| - 1]);
      var c := t[|t| - 1];
      if c == '.' then (closed + [num], 0) else (closed, num * 10 + DigitValue(c))
  }

  /** The loop state agrees with the pieces of the text: one closed value per
      dot, each the decimal value of its piece. */
  lemma {:induction false} TallySplit(t: string)
    requires forall j :: 0 <= j < |t| ==> IsDigit(t[j]) || t[j] == '.'
    ensures Agrees(Tally(t).0, Tally(t).1, Split(t, '.'))
    decreases |t|
  {
    if t != [] {
      var init := t[..|t| - 1];
      var c := t[|t| - 1];
      TallySplit(init);
      assert t == init + [c];
      SplitSnoc(init, c, '.');
      if c == '.' {
        AgreesDot(Tally(init).0, Tally(init).1, Split(init, '.'));
      } else {
        AgreesDigit(Tally(init).0, Tally(init).1, Split(init, '.'), c);
      }
    }
  }

  /** Closed values and the open value match the pieces, all digit strings. */
  predicate Agrees(closed: seq<nat>, num: nat, pieces: seq<string>)
  {
    && |pieces| >= 1 && |closed| == |pieces| - 1
    && (forall j :: 0 <= j < |pieces| ==> AllDigits(pieces[j]))
    && (forall j :: 0 <= j < |closed| ==> closed[j] == DigitsValue(pieces[j]))
    && num == DigitsValue(pieces[|pieces| - 1])
  }

  /** A dot closes the open value and opens an empty piece ... */
  lemma AgreesDot(closed: seq<nat>, num: nat, pieces: seq<string>)
    requires Agrees(closed, num, pieces)
    ensures Agrees(closed + [num], 0, pieces + [[]])
  {
    var q := pieces + [[]];
    assert forall j :: 0 <= j < |pieces| ==> q[j] == pieces[j];
  }

  /** ... and a digit shifts it into the open piece. */
  lemma AgreesDigit(closed: seq<nat>, num: nat, pieces: seq<string>, c: char)
    requires Agrees(closed, num, pieces) && IsDigit(c)
    ensures var n := |pieces|;
      Agrees(closed, num * 10 + DigitValue(c), pieces[..n - 1] + [pieces[n - 1] + [c]])
  {
    var n := |pieces|;
    var q := pieces[..n - 1] + [pieces[n - 1] + [c]];
    DigitsValueSnoc(pieces[n - 1], c);
    assert forall j :: 0 <= j < n - 1 ==> q[j] == pieces[j];
    assert q[n - 1] == pieces[n - 1] + [c];
  }

  /** Where the scan stops, the loop state decides `FastVersion`. */
  lemma TallyGivesFastVersion(line: string, rest: string, i: nat)
    requires |line| >= |L.VERSION_PREFIX| + 5 && L.VERSION_PREFIX <= line && rest == line[|L.VERSION_PREFIX|..]
    requires i <= |rest|
    requires forall j :: 0 <= j < i ==> IsDigit(rest[j]) || rest[j] == '.'
    requires i < |rest| ==> !(IsDigit(rest[i]) || rest[i] == '.')
    ensures FastVersion(line) ==
      var (closed, num) := Tally(rest[..i]);
      if |closed| == 2 then Some((closed[0], closed[1], num)) else None
  {
    assert ScanRun(rest) == i;
    TallySplit(rest[..i]);
  }

  /** A third dot inside the run of digits and dots rules the line out. */
  lemma ThirdDot(line: string, rest: string, m: nat)
    requires |line| >= |L.VERSION_PREFIX| + 5 && L.VERSION_PREFIX <= line && rest == line[|L.VERSION_PREFIX|..]
    requires m <= |rest|
    requires forall j :: 0 <= j < m ==> IsDigit(rest[j]) || rest[j] == '.'
    requires |Tally(rest[..m]).0| == 3
    ensures FastVersion(line) == None
  {
    TallySplit(rest[..m]);
    var n := ScanRun(rest);
    assert m <= n;
    SplitPrefix(rest[..m], rest[m..n], '.');
    assert rest[..m] + rest[m..n] == rest[..n];
  }

  /** The line `main` writes for a version: the prefix and `M.m.p`, no 'v'. */
  function VersionLine(t: Triple): string
  {
    L.VERSION_PREFIX + DottedTriple(t.0, t.1, t.2)
  }

  /** The characters of `M.m.p` are all digits and dots. */
  lemma DottedTripleChars(t: Triple)
    ensures forall j :: 0 <= j < |DottedTriple(t.0, t.1, t.2)| ==>
      IsDigit(DottedTriple(t.0, t.1, t.2)[j]) || DottedTriple(t.0, t.1, t.2)[j] == '.'
  {
    var rest := DottedTriple(t.0, t.1, t.2);
    assert forall j :: 0 <= j < |rest| ==>
      rest[j] == '.' || rest[j] in NatToString(t.0) || rest[j] in NatToString(t.1) || rest[j] in NatToString(t.2);
  }

  /** Text after the version is ignored once it starts with anything but a
      digit or a dot: `@Taskline version 1.2.3-beta` reads as 1.2.3. */
  lemma FastVersionTrailing(t: Triple, tail: string)
    requires tail == [] || !(IsDigit(tail[0]) || tail[0] == '.')
    ensures FastVersion(VersionLine(t) + tail) == Some(t)
  {
    var line := VersionLine(t) + tail;
    var triple := DottedTriple(t.0, t.1, t.2);
    var rest := triple + tail;
    assert L.VERSION_PREFIX <= line && line[|L.VERSION_PREFIX|..] == rest by {
      assert line == L.VERSION_PREFIX + rest;
    }
    assert rest[..ScanRun(rest)] == triple by {
      DottedTripleChars(t);
      RunEndsAt(triple, tail);
    }
    SplitDottedTriple(t.0, t.1, t.2);
  }

  /** The run of digits and dots in `M.m.p` followed by `tail` is `M.m.p`. */
  lemma RunEndsAt(triple: string, tail: string)
    requires forall j :: 0 <= j < |triple| ==> IsDigit(triple[j]) || triple[j] == '.'
    requires tail == [] || !(IsDigit(tail[0]) || tail[0] == '.')
    ensures (triple + tail)[..|triple|] == triple
    ensures forall j :: 0 <= j < |triple| ==> IsDigit((triple + tail)[j]) || (triple + tail)[j] == '.'
    ensures |triple| < |triple + tail| ==> !(IsDigit((triple + tail)[|triple|]) || (triple + tail)[|triple|] == '.')
  {
  }

  /** Round trip: the tool reads back every version line it writes. */
  lemma FastVersionLine(t: Triple)
    ensures FastVersion(VersionLine(t)) == Some(t)
  {
    FastVersionTrailing(t, []);
    assert VersionLine(t) + [] == VersionLine(t);
  }

  /** A fourth part rules a line out: `@Taskline version 1.0.0.1` is not a
      version line. */
  lemma FastVersionExtraPart(t: Triple, tail: string)
    ensures FastVersion(VersionLine(t) + "." + tail) == None
  {
    var line := VersionLine(t) + "." + tail;
    var triple := DottedTriple(t.0, t.1, t.2);
    var rest := triple + "." + tail;
    assert line == L.VERSION_PREFIX + rest;
    assert L.VERSION_PREFIX <= line && line[|L.VERSION_PREFIX|..] == rest;
    DottedTripleChars(t);
    ExtraPartRun(t, tail);
    ThirdDot(line, rest, |triple| + 1);
  }

  /** The run of `M.m.p.` closes three parts. */
  lemma ExtraPartRun(t: Triple, tail: string)
    ensures var triple := DottedTriple(t.0, t.1, t.2);
      var rest := triple + "." + tail;
      && (forall j :: 0 <= j < |triple| + 1 ==> IsDigit(rest[j]) || rest[j] == '.')
      && |Tally(rest[..|triple| + 1]).0| == 3
  {
    var triple := DottedTriple(t.0, t.1, t.2);
    var rest := triple + "." + tail;
    DottedTripleChars(t);
    assert rest[..|triple| + 1] == triple + ".";
    SplitDottedTriple(t.0, t.1, t.2);
    SplitSnoc(triple, '.', '.');
    TallySplit(triple + ".");
  }

  /** A byte that is neither a digit nor a dot right after the prefix (the
      'v' of a library version line, a letter) ends the run before it
      starts, so no part is closed. */
  lemma FastVersionNoRun(c: char, tail: string)
    requires !IsDigit(c) && c != '.'
    ensures FastVersion(L.VERSION_PREFIX + [c] + tail) == None
  {
    var line := L.VERSION_PREFIX + [c] + tail;
    assert line[|L.VERSION_PREFIX|..] == [c] + tail;
    assert ScanRun([c] + tail) == 0;
    assert ([c] + tail)[..0] == [];
    assert Split([], '.') == [[]];
  }

  /** The tool's tests for `parse_version_fast`: the accepted lines ... */
  lemma FastVersionAccepted()
    ensures FastVersion("@Taskline version 1.0.0") == Some((1, 0, 0))
    ensures FastVersion("@Taskline version 10.20.30") == Some((10, 20, 30))
    ensures FastVersion("@Taskline version 0.0.1") == Some((0, 0, 1))
    ensures FastVersion("@Taskline version 999.999.999") == Some((999, 999, 999))
  {
    SmallVersionLines();
    LargeVersionLines();
    FastVersionLine((1, 0, 0));
    FastVersionLine((10, 20, 30));
    FastVersionLine((0, 0, 1));
    FastVersionLine((999, 999, 999));
  }

  lemma SmallVersionLines()
    ensures VersionLine((1, 0, 0)) == "@Taskline version 1.0.0"
    ensures VersionLine((0, 0, 1)) == "@Taskline version 0.0.1"
  {
    assert NatToString(1) == "1" && NatToString(0) == "0";
  }

  lemma LargeVersionLines()
    ensures VersionLine((10, 20, 30)) == "@Taskline version 10.20.30"
    ensures VersionLine((999, 999, 999)) == "@Taskline version 999.999.999"
  {
    TwoDigitRenderings();
    NineNineNine();
  }

  lemma TwoDigitRenderings()
    ensures NatToString(10) == "10" && NatToString(20) == "20" && NatToString(30) == "30"
  {
    assert NatToString(1) == "1" && NatToString(2) == "2" && NatToString(3) == "3";
  }

  lemma NineNineNine()
    ensures NatToString(999) == "999"
  {
    assert NatToString(9) == "9";
    assert NatToString(99) == "99";
  }

  /** ... and the rejected ones. */
  lemma FastVersionRejected()
    ensures FastVersion("@Taskline version 1.0") == None
    ensures FastVersion("@Taskline version 1.0.0.1") == None
    ensures FastVersion("@Taskline version a.b.c") == None
    ensures FastVersion("@Wrong prefix 1.0.0") == None
    ensures FastVersion("@Taskline version") == None
    ensures FastVersion("") == None
    ensures FastVersion("random text") == None
  {
    assert NatToString(1) == "1" && NatToString(0) == "0";
    FastVersionExtraPart((1, 0, 0), "1");
    assert VersionLine((1, 0, 0)) + "." + "1" == "@Taskline version 1.0.0.1";
    assert |"@Taskline version 1.0"| < |L.VERSION_PREFIX| + 5;
    FastVersionNoRun('a', ".b.c");
    assert L.VERSION_PREFIX + ['a'] + ".b.c" == "@Taskline version a.b.c";
  }

  /** A version line holds no line break and is not empty. */
  lemma VersionLineIsLine(t: Triple)
    ensures NoBreak(VersionLine(t)) && VersionLine(t) != []
  {
    var line := VersionLine(t);
    var rest := DottedTriple(t.0, t.1, t.2);
    assert forall j :: 0 <= j < |line| ==>
      line[j] in L.VERSION_PREFIX || line[j] == '.' || line[j] in NatToString(t.0) || line[j] in NatToString(t.1) || line[j] in NatToString(t.2);
  }

  /** The scan in `main` (lines 95-103): the index and version of the FIRST
      line `parse_version_fast` accepts; once one is found, later lines are
      not parsed at all. */
  function FirstVersion(lines: seq<string>): (r: Option<(nat, Triple)>)
    ensures r.Some? ==> r.value.0 < |lines|
    decreases |lines|
  {
    if lines == [] then None
    else
      var earlier := FirstVersion(lines[..|lines| - 1]);
      if earlier.Some? then earlier
      else match FastVersion(lines[|lines| - 1])
        case Some(t) => Some((|lines| - 1, t))
        case None => None
  }

  /** First match wins: a version line with no version line before it is the
      one found, whatever follows it ... */
  lemma {:induction false} FirstVersionAt(lines: seq<string>, k: nat, t: Triple)
    requires k < |lines| && FastVersion(lines[k]) == Some(t)
    requires forall j :: 0 <= j < k ==> FastVersion(lines[j]).None?
    ensures FirstVersion(lines) == Some((k, t))
    decreases |lines|
  {
    var n := |lines|;
    var init := lines[..n - 1];
    assert forall j :: 0 <= j < n - 1 ==> init[j] == lines[j];
    if k < n - 1 {
      FirstVersionAt(init, k, t);
    } else {
      FirstVersionNone(init);
    }
  }

  /** ... no version line means nothing is found ... */
  lemma {:induction false} FirstVersionNone(lines: seq<string>)
    requires forall j :: 0 <= j < |lines| ==> FastVersion(lines[j]).None?
    ensures FirstVersion(lines) == None
    decreases |lines|
  {
    if lines != [] {
      var init := lines[..|lines| - 1];
      assert forall j :: 0 <= j < |init| ==> init[j] == lines[j];
      FirstVersionNone(init);
    }
  }

  /** ... and whatever is found is a version line with none before it. */
  lemma {:induction false} FirstVersionSound(lines: seq<string>)
    ensures match FirstVersion(lines)
      case Some((k, t)) =>
        && FastVersion(lines[k]) == Some(t)
        && forall j :: 0 <= j < k ==> FastVersion(lines[j]).None?
      case None => forall j :: 0 <= j < |lines| ==> FastVersion(lines[j]).None?
    decreases |lines|
  {
    if lines != [] {
      var init := lines[..|lines| - 1];
      assert forall j :: 0 <= j < |init| ==> init[j] == lines[j];
      FirstVersionSound(init);
    }
  }

  /** `version_line_index` after the scan. */
  function VersionIndex(lines: seq<string>): (r: Option<nat>)
    ensures r.Some? ==> r.value < |lines|
  {
    match FirstVersion(lines)
    case Some((k, _)) => Some(k)
    case None => None
  }

  /** `current_version` after the scan: the first version found, or 0.0.0. */
  function CurrentVersion(lines: seq<string>): Triple
  {
    match FirstVersion(lines)
    case Some((_, t)) => t
    case None => (0, 0, 0)
  }

  /** Lines 119-130: the new version line replaces the line the scan found;
      with none found it is inserted at index 1 when there are at least two
      lines, and appended otherwise. Every other line keeps its place or
      moves down by one. */
  function PlaceVersionLine(lines: seq<string>, index: Option<nat>, line: string): (r: seq<string>)
    requires index.Some? ==> index.value < |lines|
    ensures index.Some? ==>
      && |r| == |lines| && r[index.value] == line
      && forall j :: 0 <= j < |lines| && j != index.value ==> r[j] == lines[j]
    ensures index.None? && |lines| >= 2 ==>
      && |r| == |lines| + 1 && r[0] == lines[0] && r[1] == line
      && forall j :: 2 <= j < |r| ==> r[j] == lines[j - 1]
    ensures index.None? && |lines| < 2 ==>
      && |r| == |lines| + 1 && r[|lines|] == line
      && forall j :: 0 <= j < |lines| ==> r[j] == lines[j]
  {
    match index
    case Some(k) => lines[k := line]
    case None => if |lines| >= 2 then lines[..1] + [line] + lines[1..] else lines + [line]
  }

  /** The lines `main` writes back for `lines` read from the file. */
  function BumpedLines(lines: seq<string>, kind: BumpType): seq<string>
  {
    PlaceVersionLine(lines, VersionIndex(lines), VersionLine(NextVersion(kind, CurrentVersion(lines))))
  }

  /** The core of `main` (lines 89-154) between reading the file and writing
      it: scan and collect the lines, bump, place the version line, join the
      lines with '\n', and name the renamed file. */
  method BumpScript(content: string, kind: BumpType, name: string)
    returns (newVersion: Triple, updated: string, newName: string)
    requires IsFileName(name)
    ensures newVersion == NextVersion(kind, CurrentVersion(Lines(content)))
    ensures updated == Join(BumpedLines(Lines(content), kind), "\n")
    ensures newName == RenamedFile(name, newVersion)
  {
    var lines, current, index := ScanLines(Lines(content));
    newVersion := NextVersion(kind, current);
    var versionLine := L.VERSION_PREFIX + DottedTriple(newVersion.0, newVersion.1, newVersion.2);
    match index {
      case Some(k) =>
        lines := lines[k := versionLine];
      case None =>
        if |lines| >= 2 {
          lines := lines[..1] + [versionLine] + lines[1..];
        } else {
          lines := lines + [versionLine];
        }
    }
    updated := JoinLines(lines);
    newName := RenamedFile(name, newVersion);
  }

  /** Lines 95-103: every line is collected, and only until a version line
      is found is each one handed to `parse_version_fast`. */
  method ScanLines(source: seq<string>) returns (lines: seq<string>, current: Triple, index: Option<nat>)
    ensures lines == source
    ensures index == VersionIndex(source) && current == CurrentVersion(source)
  {
    lines := [];
    current := (0, 0, 0);
    index := None;
    for i := 0 to |source|
      invariant lines == source[..i]
      invariant FirstVersion(source[..i]) == if index.Some? then Some((index.value, current)) else None
      invariant index.None? ==> current == (0, 0, 0)
    {
      assert source[..i + 1][..i] == source[..i];
      if index.None? {
        var found := ParseVersionFast(source[i]);
        if found.Some? {
          current := found.value;
          index := Some(i);
        }
      }
      lines := lines + [source[i]];
    }
    assert source[..|source|] == source;
  }

  /** Lines 133-140: the lines with a '\n' before every line but the first. */
  method JoinLines(lines: seq<string>) returns (updated: string)
    ensures updated == Join(lines, "\n")
  {
    updated := [];
    for i := 0 to |lines|
      invariant updated == Join(lines[..i], "\n")
    {
      assert lines[..i + 1][..i] == lines[..i];
      if i > 0 {
        updated := updated + "\n";
      }
      updated := updated + lines[i];
    }
    assert lines[..|lines|] == lines;
  }

  /** Bumping twice is monotone: reading back the text `main` writes finds
      the version it wrote, which is strictly greater than the one it read.
      Text with a '\r' is excluded, because `str::lines` strips a '\r' before
      a '\n' that the join does not put back. */
  lemma BumpAgain(content: string, kind: BumpType)
    requires '\r' !in content
    ensures CurrentVersion(Lines(Join(BumpedLines(Lines(content), kind), "\n"))) ==
      NextVersion(kind, CurrentVersion(Lines(content)))
    ensures TripleLess(CurrentVersion(Lines(content)),
      CurrentVersion(Lines(Join(BumpedLines(Lines(content), kind), "\n"))))
  {
    var ls := Lines(content);
    var nv := NextVersion(kind, CurrentVersion(ls));
    var bl := BumpedLines(ls, kind);
    var k := PlacedFirst(ls, kind);
    LinesAvoidCR(content);
    BumpedLinesClean(ls, kind);
    VersionLineIsLine(nv);
    ReadBackPrefix(bl, k);
    FastVersionLine(nv);
    FirstVersionAt(Lines(Join(bl, "\n")), k, nv);
  }

  /** Reading joined lines back keeps every line up to a non-empty one. */
  lemma ReadBackPrefix(bl: seq<string>, k: nat)
    requires forall j :: 0 <= j < |bl| ==> '\n' !in bl[j] && !EndsWithCR(bl[j])
    requires k < |bl| && bl[k] != []
    ensures var back := Lines(Join(bl, "\n"));
      k < |back| && back[k] == bl[k] && forall j :: 0 <= j < k ==> back[j] == bl[j]
  {
    LinesOfJoin(bl);
  }

  /** Where the version line lands in the bumped lines: no line before it is
      a version line. */
  lemma PlacedFirst(ls: seq<string>, kind: BumpType) returns (k: nat)
    ensures k < |BumpedLines(ls, kind)|
    ensures BumpedLines(ls, kind)[k] == VersionLine(NextVersion(kind, CurrentVersion(ls)))
    ensures forall j :: 0 <= j < k ==> FastVersion(BumpedLines(ls, kind)[j]).None?
  {
    FirstVersionSound(ls);
    var bl := BumpedLines(ls, kind);
    match VersionIndex(ls)
    case Some(i) =>
      k := i;
      assert forall j :: 0 <= j < k ==> bl[j] == ls[j];
    case None =>
      k := if |ls| >= 2 then 1 else |ls|;
      assert forall j :: 0 <= j < k ==> bl[j] == ls[j];
  }

  /** The bumped lines of text without '\r' hold no line break either. */
  lemma BumpedLinesClean(ls: seq<string>, kind: BumpType)
    requires forall j :: 0 <= j < |ls| ==> NoBreak(ls[j])
    ensures forall j :: 0 <= j < |BumpedLines(ls, kind)| ==>
      '\n' !in BumpedLines(ls, kind)[j] && !EndsWithCR(BumpedLines(ls, kind)[j])
  {
    var line := VersionLine(NextVersion(kind, CurrentVersion(ls)));
    VersionLineIsLine(NextVersion(kind, CurrentVersion(ls)));
    var bl := BumpedLines(ls, kind);
    assert forall j :: 0 <= j < |bl| ==> bl[j] == line || bl[j] in ls;
    forall j | 0 <= j < |bl| ensures '\n' !in bl[j] && !EndsWithCR(bl[j]) {
      assert NoBreak(bl[j]);
    }
  }

  /** The names this model covers: a bare final path component, neither
      empty nor "." or "..", with no '/'; directories are not modelled. */
  predicate IsFileName(name: string)
  {
    name != [] && name != "." && name != ".." && '/' !in name
  }

  /** Index of the last '.' of `s`, or -1 when there is none. */
  function LastDot(s: string): (r: int)
    ensures -1 <= r < |s|
    ensures r >= 0 ==> s[r] == '.'
    ensures forall j :: r < j < |s| ==> s[j] != '.'
    decreases |s|
  {
    if s == [] then -1
    else if s[|s| - 1] == '.' then |s| - 1
    else LastDot(s[..|s| - 1])
  }

  /** `Path::file_stem` and `Path::extension` of a bare file name: split at
      the last '.', except when there is none or it is the first character
      (a hidden file), which gives no extension. */
  function StemAndExtension(name: string): (string, Option<string>)
  {
    var d := LastDot(name);
    if d <= 0 then (name, None) else (name[..d], Some(name[d + 1..]))
  }

  /** The stem and extension put back together give the name, the extension
      holds no '.', and a name without extension has no '.' after its first
      character. */
  lemma StemAndExtensionRebuild(name: string)
    ensures match StemAndExtension(name)
      case (stem, Some(ext)) => stem + "." + ext == name && stem != [] && '.' !in ext
      case (stem, None) => stem == name && forall j :: 0 < j < |name| ==> name[j] != '.'
  {
    var d := LastDot(name);
    if d > 0 {
      assert name[..d] + "." + name[d + 1..] == name;
      var ext := name[d + 1..];
      forall j | 0 <= j < |ext| ensures ext[j] != '.' {
        assert ext[j] == name[d + 1 + j];
      }
    }
  }

  /** Lines 151-154: `stem_vM.m.p.ext`, or `stem_vM.m.p` without extension. */
  function RenamedFile(name: string, t: Triple): string
    requires IsFileName(name)
  {
    var (stem, ext) := StemAndExtension(name);
    match ext
    case Some(e) => stem + "_v" + DottedTriple(t.0, t.1, t.2) + "." + e
    case None => stem + "_v" + DottedTriple(t.0, t.1, t.2)
  }

  /** The last dot of `x + "." + e` is the one before `e` when `e` has none. */
  lemma {:induction false} LastDotAfter(x: string, e: string)
    requires '.' !in e
    ensures LastDot(x + "." + e) == |x|
    decreases |e|
  {
    var s := x + "." + e;
    if e == [] {
      assert s[|s| - 1] == '.';
    } else {
      var e' := e[..|e| - 1];
      assert s[..|s| - 1] == x + "." + e';
      assert s[|s| - 1] == e[|e| - 1];
      LastDotAfter(x, e');
    }
  }

  /** A renamed file keeps its extension: the new name's extension is the
      old one, and its stem is the old stem with `_vM.m.p` appended. */
  lemma RenameKeepsExtension(name: string, t: Triple, stem: string, ext: string)
    requires IsFileName(name) && StemAndExtension(name) == (stem, Some(ext))
    ensures StemAndExtension(RenamedFile(name, t)) == (stem + "_v" + DottedTriple(t.0, t.1, t.2), Some(ext))
  {
    StemAndExtensionRebuild(name);
    var x := stem + "_v" + DottedTriple(t.0, t.1, t.2);
    assert RenamedFile(name, t) == x + "." + ext;
    LastDotAfter(x, ext);
    assert |x| > 0;
    assert (x + "." + ext)[..|x|] == x;
    assert (x + "." + ext)[|x| + 1..] == ext;
  }

  /** A name without extension gains one: the patch number becomes the
      extension of the renamed file, so the next bump of that file inserts
      its `_vM.m.p` before the old patch number. */
  lemma RenameWithoutExtension(name: string, t: Triple)
    requires IsFileName(name) && StemAndExtension(name).1 == None
    ensures StemAndExtension(RenamedFile(name, t)) ==
      (name + "_v" + NatToString(t.0) + "." + NatToString(t.1), Some(NatToString(t.2)))
  {
    StemAndExtensionRebuild(name);
    var x := name + "_v" + NatToString(t.0) + "." + NatToString(t.1);
    var p := NatToString(t.2);
    assert RenamedFile(name, t) == x + "." + p;
    assert '.' !in p by {
      assert forall j :: 0 <= j < |p| ==> IsDigit(p[j]);
    }
    LastDotAfter(x, p);
    assert (x + "." + p)[..|x|] == x;
    assert (x + "." + p)[|x| + 1..] == p;
  }

  /** The tool's tests for the new file name: with an extension ... */
  lemma RenamedFileWithExtension()
    ensures RenamedFile("my-script.v1.2.3.tskln", (2, 0, 0)) == "my-script.v1.2.3_v2.0.0.tskln"
  {
    ExampleStem();
    assert DottedTriple(2, 0, 0) == "2.0.0" by {
      assert NatToString(0) == "0" && NatToString(2) == "2";
    }
  }

  lemma ExampleStem()
    ensures StemAndExtension("my-script.v1.2.3.tskln") == ("my-script.v1.2.3", Some("tskln"))
  {
    var name := "my-script.v1.2.3.tskln";
    LastDotAfter("my-script.v1.2.3", "tskln");
    assert "my-script.v1.2.3" + "." + "tskln" == name;
    assert name[..16] == "my-script.v1.2.3";
    assert name[17..] == "tskln";
  }

  /** ... and without one. */
  lemma RenamedFileWithoutExtension()
    ensures RenamedFile("my-script", (1, 5, 2)) == "my-script_v1.5.2"
  {
    assert StemAndExtension("my-script") == ("my-script", None) by {
      assert LastDot("my-script") == -1;
    }
    assert DottedTriple(1, 5, 2) == "1.5.2" by {
      assert NatToString(1) == "1" && NatToString(5) == "5" && NatToString(2) == "2";
    }
  }
}
