/**
  The `taskline-init` tool (taskline-init/src/main.rs): the byte-level check
  of a version argument, the name of the file it creates and the header it
  writes into it.
*/
module TasklineInit {
  import opened Wrappers
  import opened Text
  import L = TasklineLib

  /** `TasklineInitializationError`: one message. */
  datatype InitError = InitError(details: string)

  const TOO_SHORT := "Version too short - minimum format is v1.0.0"
  const NO_V := "Version must start with 'v'"
  const EMPTY_PART := "Empty version part - each part must contain digits"
  const TOO_MANY_DOTS := "Too many dots - version must have exactly 2 dots (major.minor.patch)"
  const INVALID_CHAR := "Invalid character - version can only contain digits and dots"
  const MISSING_DOTS := "Missing dots - version must have exactly 2 dots (major.minor.patch)"
  const LAST_EMPTY := "Last version part is empty - must contain digits"

  /** What the validator means to accept, stated without its loop: 'v' and
      three non-empty runs of digits separated by dots. */
  predicate IsVersionString(s: string)
  {
    && |s| >= 1 && s[0] == 'v'
    && var pieces := Split(s[1..], '.');
    && |pieces| == 3
    && forall j :: 0 <= j < 3 ==> pieces[j] != [] && AllDigits(pieces[j])
  }

  /** The loop state of `validate_version`: `dot_count` and
      `has_digits_in_current_part`. */
  datatype Progress = Progress(dots: nat, hasDigits: bool)

  /** One byte of the loop (lines 55-86). */
  function Step(p: Progress, c: char): Result<Progress, string>
  {
    if c == '.' then
      if !p.hasDigits then Err(EMPTY_PART)
      else if p.dots + 1 > 2 then Err(TOO_MANY_DOTS)
      else Ok(Progress(p.dots + 1, false))
    else if IsDigit(c) then Ok(Progress(p.dots, true))
    else Err(INVALID_CHAR)
  }

  /** The loop over the bytes after the 'v', stopping at the first error. */
  function Run(t: string): Result<Progress, string>
    decreases |t|
  {
    if t == [] then Ok(Progress(0, false))
    else
      match Run(t[..|t| - 1])
      case Err(m) => Err(m)
      case Ok(p) => Step(p, t[|t| - 1])
  }

  /** What `validate_version` returns (lines 20-108). */
  function Validation(s: string): Result<(), InitError>
  {
    if |s| < 5 then Err(InitError(TOO_SHORT))
    else if s[0] != 'v' then Err(InitError(NO_V))
    else
      match Run(s[1..])
      case Err(m) => Err(InitError(m))
      case Ok(p) =>
        if p.dots != 2 then Err(InitError(MISSING_DOTS))
        else if !p.hasDigits then Err(InitError(LAST_EMPTY))
        else Ok(())
  }

  /** `validate_version`: the length and 'v' checks, then one pass over the
      remaining bytes, then the checks on the final state. It accepts
      exactly the version strings. */
  method ValidateVersion(version: string) returns (r: Result<(), InitError>)
    ensures r == Validation(version)
    ensures r.Ok? <==> IsVersionString(version)
  {
    ValidationAccepts(version);
    var len := |version|;
    if len < 5 {
      return Err(InitError(TOO_SHORT));
    }
    if version[0] != 'v' {
      return Err(InitError(NO_V));
    }
    var dotCount: nat := 0;
    var hasDigits := false;
    var i := 1;
    while i < len
      invariant 1 <= i <= len && dotCount <= 2
      invariant Run(version[1..i]) == Ok(Progress(dotCount, hasDigits))
    {
      var b := version[i];
      assert version[1..i + 1][..i - 1] == version[1..i];
      assert version[1..][..i] == version[1..i + 1];
      if b == '.' {
        if !hasDigits {
          RunStops(version[1..], i);
          return Err(InitError(EMPTY_PART));
        }
        dotCount := dotCount + 1;
        if dotCount > 2 {
          RunStops(version[1..], i);
          return Err(InitError(TOO_MANY_DOTS));
        }
        hasDigits := false;
      } else if IsDigit(b) {
        hasDigits := true;
      } else {
        RunStops(version[1..], i);
        return Err(InitError(INVALID_CHAR));
      }
      i := i + 1;
    }
    assert i == len;
    assert version[1..i] == version[1..] by { assert |version[1..i]| == |version[1..]|; }
    if dotCount != 2 {
      return Err(InitError(MISSING_DOTS));
    }
    if !hasDigits {
      return Err(InitError(LAST_EMPTY));
    }
    return Ok(());
  }

  /** The first error of the loop is final: what follows is never read. */
  lemma {:induction false} RunStops(t: string, k: nat)
    requires k <= |t| && Run(t[..k]).Err?
    ensures Run(t) == Run(t[..k])
    decreases |t| - k
  {
    if k < |t| {
      assert t[..k + 1][..k] == t[..k];
      RunStops(t, k + 1);
    } else {
      assert t[..k] == t;
    }
  }

  /** A prefix the loop gets through: digits and dots only, at most three
      parts, and every part closed by a dot non-empty. */
  predicate Passes(t: string)
  {
    && (forall j :: 0 <= j < |t| ==> IsDigit(t[j]) || t[j] == '.')
    && |Split(t, '.')| <= 3
    && forall j :: 0 <= j < |Split(t, '.')| - 1 ==> Split(t, '.')[j] != []
  }

  /** The loop gets through exactly the prefixes that pass, and then counts
      the dots and knows whether the open part has a digit. */
  lemma {:induction false} RunSplit(t: string)
    ensures Run(t).Ok? <==> Passes(t)
    ensures Run(t).Ok? ==> Run(t).value == Summary(t)
    decreases |t|
  {
    if t != [] {
      var init := t[..|t| - 1];
      var c := t[|t| - 1];
      RunSplit(init);
      assert t == init + [c];
      RunSnoc(init, c);
      if Run(init).Err? {
        if Passes(t) {
          PassesShrinks(init, c);
        }
      } else if c == '.' {
        DotStep(init);
      } else if IsDigit(c) {
        DigitStep(init, c);
      } else {
        assert !(IsDigit(t[|t| - 1]) || t[|t| - 1] == '.');
      }
    }
  }

  /** The dot count and whether the open part has a digit, read off the
      pieces of the text. */
  function Summary(t: string): Progress
  {
    var pieces := Split(t, '.');
    Progress(|pieces| - 1, pieces[|pieces| - 1] != [])
  }

  lemma RunSnoc(x: string, c: char)
    ensures Run(x + [c]) == match Run(x) case Err(m) => Err(m) case Ok(p) => Step(p, c)
  {
    assert (x + [c])[..|x|] == x;
  }

  /** A dot after a passing text: the loop's verdict agrees with `Passes`. */
  lemma DotStep(init: string)
    requires Passes(init) && Run(init) == Ok(Summary(init))
    ensures Run(init + ['.']).Ok? <==> Passes(init + ['.'])
    ensures Run(init + ['.']).Ok? ==> Run(init + ['.']).value == Summary(init + ['.'])
  {
    RunSnoc(init, '.');
    SplitSnocSep(init, '.');
    var p := Split(init, '.');
    var q := Split(init + ['.'], '.');
    assert forall j :: 0 <= j < |p| ==> q[j] == p[j];
    if Run(init + ['.']).Ok? {
      DigitsOrDotsSnoc(init, '.');
    }
  }

  /** A digit after a passing text keeps it passing. */
  lemma DigitStep(init: string, c: char)
    requires IsDigit(c)
    requires Passes(init) && Run(init) == Ok(Summary(init))
    ensures Passes(init + [c]) && Run(init + [c]) == Ok(Summary(init + [c]))
  {
    RunSnoc(init, c);
    SplitSnocOther(init, c, '.');
    DigitsOrDotsSnoc(init, c);
  }

  lemma DigitsOrDotsSnoc(init: string, c: char)
    requires forall j :: 0 <= j < |init| ==> IsDigit(init[j]) || init[j] == '.'
    requires IsDigit(c) || c == '.'
    ensures forall j :: 0 <= j < |init + [c]| ==> IsDigit((init + [c])[j]) || (init + [c])[j] == '.'
  {
  }

  /** A passing text's prefix passes too. */
  lemma PassesShrinks(init: string, c: char)
    requires Passes(init + [c])
    ensures Passes(init)
  {
    var t := init + [c];
    if c == '.' {
      SplitSnocSep(init, '.');
      var p := Split(init, '.');
      assert forall j :: 0 <= j < |p| ==> Split(t, '.')[j] == p[j];
    } else {
      SplitSnocOther(init, c, '.');
    }
    assert forall j :: 0 <= j < |init| ==> init[j] == t[j];
  }

  /** `validate_version` accepts exactly the version strings. */
  lemma ValidationAccepts(s: string)
    ensures Validation(s).Ok? <==> IsVersionString(s)
  {
    if |s| >= 1 && s[0] == 'v' {
      var body := s[1..];
      RunSplit(body);
      var pieces := Split(body, '.');
      if Validation(s).Ok? {
        SplitDigits(body, '.');
      }
      if IsVersionString(s) {
        JoinSplit(body, '.');
        JoinThree(pieces, ".");
        assert forall j :: 0 <= j < |body| ==> IsDigit(body[j]) || body[j] == '.' by {
          assert forall j :: 0 <= j < |body| ==>
            body[j] == '.' || body[j] in pieces[0] || body[j] in pieces[1] || body[j] in pieces[2];
        }
      }
    }
  }

  /** The shortest accepted version is six bytes ("v1.0.0"), so the length
      check of line 30 only chooses the message, never the verdict. */
  lemma AcceptedLength(s: string)
    requires Validation(s).Ok?
    ensures |s| >= 6
  {
    ValidationAccepts(s);
    var body := s[1..];
    var pieces := Split(body, '.');
    JoinSplit(body, '.');
    JoinThree(pieces, ".");
  }

  /** An accepted version is 'v' followed by digits and dots only. */
  lemma AcceptedChars(s: string)
    requires Validation(s).Ok?
    ensures |s| >= 6 && s[0] == 'v'
    ensures forall j :: 1 <= j < |s| ==> IsDigit(s[j]) || s[j] == '.'
  {
    AcceptedLength(s);
    RunSplit(s[1..]);
    assert forall j :: 1 <= j < |s| ==> s[j] == s[1..][j - 1];
  }

  /** "Invalid character" is only reported for a byte after the 'v' that is
      neither a digit nor a dot. */
  lemma {:induction false} RunInvalid(t: string)
    requires Run(t) == Err(INVALID_CHAR)
    ensures exists j :: 0 <= j < |t| && !(IsDigit(t[j]) || t[j] == '.')
    decreases |t|
  {
    var n := |t|;
    var init := t[..n - 1];
    if Run(init).Err? {
      RunInvalid(init);
      var j :| 0 <= j < |init| && !(IsDigit(init[j]) || init[j] == '.');
      assert t[j] == init[j];
    } else {
      assert !(IsDigit(t[n - 1]) || t[n - 1] == '.');
    }
  }

  /** The tool's tests for `validate_version`, with the message each
      rejection carries: too short, no 'v' ... */
  lemma ValidationShortOrNoV()
    ensures Validation("") == Err(InitError(TOO_SHORT))
    ensures Validation("v") == Err(InitError(TOO_SHORT))
    ensures Validation("v1") == Err(InitError(TOO_SHORT))
    ensures Validation("v1.0") == Err(InitError(TOO_SHORT))
    ensures Validation("1.0.0") == Err(InitError(NO_V))
  {
  }

  lemma ValidationAccepted()
    ensures Validation("v1.0.0") == Ok(())
  {
    assert "v1.0.0"[1..] == "1.0.0";
    assert Run("1") == Ok(Progress(0, true));
    RunSnoc("1", '.');
    assert "1" + ['.'] == "1.";
    assert Run("1.") == Ok(Progress(1, false));
    RunSnoc("1.", '0');
    assert "1." + ['0'] == "1.0";
    assert Run("1.0") == Ok(Progress(1, true));
    RunSnoc("1.0", '.');
    assert "1.0" + ['.'] == "1.0.";
    assert Run("1.0.") == Ok(Progress(2, false));
    RunSnoc("1.0.", '0');
    assert "1.0." + ['0'] == "1.0.0";
    assert Run("1.0.0") == Ok(Progress(2, true));
  }

  lemma ValidationAccepted2()
    ensures Validation("v10.20.30") == Ok(())
  {
    assert "v10.20.30"[1..] == "10.20.30";
    assert Run("1") == Ok(Progress(0, true));
    RunSnoc("1", '0');
    assert "1" + ['0'] == "10";
    assert Run("10") == Ok(Progress(0, true));
    RunSnoc("10", '.');
    assert "10" + ['.'] == "10.";
    assert Run("10.") == Ok(Progress(1, false));
    RunSnoc("10.", '2');
    assert "10." + ['2'] == "10.2";
    assert Run("10.2") == Ok(Progress(1, true));
    RunSnoc("10.2", '0');
    assert "10.2" + ['0'] == "10.20";
    assert Run("10.20") == Ok(Progress(1, true));
    RunSnoc("10.20", '.');
    assert "10.20" + ['.'] == "10.20.";
    assert Run("10.20.") == Ok(Progress(2, false));
    RunSnoc("10.20.", '3');
    assert "10.20." + ['3'] == "10.20.3";
    assert Run("10.20.3") == Ok(Progress(2, true));
    RunSnoc("10.20.3", '0');
    assert "10.20.3" + ['0'] == "10.20.30";
    assert Run("10.20.30") == Ok(Progress(2, true));
  }

  lemma ValidationLastEmpty()
    ensures Validation("v1.0.") == Err(InitError(LAST_EMPTY))
  {
    assert "v1.0."[1..] == "1.0.";
    assert Run("1") == Ok(Progress(0, true));
    RunSnoc("1", '.');
    assert "1" + ['.'] == "1.";
    assert Run("1.") == Ok(Progress(1, false));
    RunSnoc("1.", '0');
    assert "1." + ['0'] == "1.0";
    assert Run("1.0") == Ok(Progress(1, true));
    RunSnoc("1.0", '.');
    assert "1.0" + ['.'] == "1.0.";
    assert Run("1.0.") == Ok(Progress(2, false));
  }

  lemma ValidationEmptyMajor()
    ensures Validation("v.1.0") == Err(InitError(EMPTY_PART))
  {
    assert "v.1.0"[1..] == ".1.0";
    assert Run(".") == Err(EMPTY_PART);
    assert ".1.0"[..1] == ".";
    RunStops(".1.0", 1);
  }

  lemma ValidationEmptyMinor()
    ensures Validation("v1..0") == Err(InitError(EMPTY_PART))
  {
    assert "v1..0"[1..] == "1..0";
    assert Run("1") == Ok(Progress(0, true));
    RunSnoc("1", '.');
    assert "1" + ['.'] == "1.";
    assert Run("1.") == Ok(Progress(1, false));
    RunSnoc("1.", '.');
    assert "1." + ['.'] == "1..";
    assert Run("1..") == Err(EMPTY_PART);
    assert "1..0"[..3] == "1..";
    RunStops("1..0", 3);
  }

  lemma ValidationExtraPart()
    ensures Validation("v1.0.0.1") == Err(InitError(TOO_MANY_DOTS))
  {
    assert "v1.0.0.1"[1..] == "1.0.0.1";
    assert Run("1") == Ok(Progress(0, true));
    RunSnoc("1", '.');
    assert "1" + ['.'] == "1.";
    assert Run("1.") == Ok(Progress(1, false));
    RunSnoc("1.", '0');
    assert "1." + ['0'] == "1.0";
    assert Run("1.0") == Ok(Progress(1, true));
    RunSnoc("1.0", '.');
    assert "1.0" + ['.'] == "1.0.";
    assert Run("1.0.") == Ok(Progress(2, false));
    RunSnoc("1.0.", '0');
    assert "1.0." + ['0'] == "1.0.0";
    assert Run("1.0.0") == Ok(Progress(2, true));
    RunSnoc("1.0.0", '.');
    assert "1.0.0" + ['.'] == "1.0.0.";
    assert Run("1.0.0.") == Err(TOO_MANY_DOTS);
    assert "1.0.0.1"[..6] == "1.0.0.";
    RunStops("1.0.0.1", 6);
  }

  lemma ValidationTrailingDot()
    ensures Validation("v1.2.3.") == Err(InitError(TOO_MANY_DOTS))
  {
    assert "v1.2.3."[1..] == "1.2.3.";
    assert Run("1") == Ok(Progress(0, true));
    RunSnoc("1", '.');
    assert "1" + ['.'] == "1.";
    assert Run("1.") == Ok(Progress(1, false));
    RunSnoc("1.", '2');
    assert "1." + ['2'] == "1.2";
    assert Run("1.2") == Ok(Progress(1, true));
    RunSnoc("1.2", '.');
    assert "1.2" + ['.'] == "1.2.";
    assert Run("1.2.") == Ok(Progress(2, false));
    RunSnoc("1.2.", '3');
    assert "1.2." + ['3'] == "1.2.3";
    assert Run("1.2.3") == Ok(Progress(2, true));
    RunSnoc("1.2.3", '.');
    assert "1.2.3" + ['.'] == "1.2.3.";
    assert Run("1.2.3.") == Err(TOO_MANY_DOTS);
  }

  lemma ValidationNonNumeric()
    ensures Validation("va.b.c") == Err(InitError(INVALID_CHAR))
  {
    assert "va.b.c"[1..] == "a.b.c";
    assert Run("a") == Err(INVALID_CHAR);
    assert "a.b.c"[..1] == "a";
    RunStops("a.b.c", 1);
  }

  lemma ValidationLetterAfter()
    ensures Validation("v1.2.3a") == Err(InitError(INVALID_CHAR))
  {
    assert "v1.2.3a"[1..] == "1.2.3a";
    assert Run("1") == Ok(Progress(0, true));
    RunSnoc("1", '.');
    assert "1" + ['.'] == "1.";
    assert Run("1.") == Ok(Progress(1, false));
    RunSnoc("1.", '2');
    assert "1." + ['2'] == "1.2";
    assert Run("1.2") == Ok(Progress(1, true));
    RunSnoc("1.2", '.');
    assert "1.2" + ['.'] == "1.2.";
    assert Run("1.2.") == Ok(Progress(2, false));
    RunSnoc("1.2.", '3');
    assert "1.2." + ['3'] == "1.2.3";
    assert Run("1.2.3") == Ok(Progress(2, true));
    RunSnoc("1.2.3", 'a');
    assert "1.2.3" + ['a'] == "1.2.3a";
    assert Run("1.2.3a") == Err(INVALID_CHAR);
  }

  lemma ValidationTwoParts()
    ensures Validation("v1.23") == Err(InitError(MISSING_DOTS))
  {
    assert "v1.23"[1..] == "1.23";
    assert Run("1") == Ok(Progress(0, true));
    RunSnoc("1", '.');
    assert "1" + ['.'] == "1.";
    assert Run("1.") == Ok(Progress(1, false));
    RunSnoc("1.", '2');
    assert "1." + ['2'] == "1.2";
    assert Run("1.2") == Ok(Progress(1, true));
    RunSnoc("1.2", '3');
    assert "1.2" + ['3'] == "1.23";
    assert Run("1.23") == Ok(Progress(1, true));
  }

  /** Lines 163-176: `<filename>.<version>.tskln`, or `<filename>.tskln`. */
  function TargetFileName(filename: string, version: Option<string>): (r: string)
    ensures |r| >= 6 && r[|r| - 6..] == ".tskln"
  {
    match version
    case Some(v) => filename + "." + v + ".tskln"
    case None => filename + ".tskln"
  }

  /** Lines 204-212: the codename line, the version line when a version was
      given (written as given, 'v' included), and an empty line. */
  function InitHeader(filename: string, version: Option<string>): string
  {
    match version
    case Some(v) => L.CODENAME_PREFIX + filename + "\n" + L.VERSION_PREFIX + v + "\n\n"
    case None => L.CODENAME_PREFIX + filename + "\n\n"
  }

  /** The tool's tests for the header: without a version ... */
  lemma InitHeaderWithoutVersion()
    ensures InitHeader("test-script", None) == "@Taskline codename test-script\n\n"
  {
    var first := "@Taskline codename test-script";
    assert L.CODENAME_PREFIX + "test-script" == first;
    assert first + "\n\n" == "@Taskline codename test-script\n\n";
  }

  /** ... and with one, written with its 'v'. */
  lemma InitHeaderWithVersion()
    ensures InitHeader("test-script", Some("v1.2.3")) ==
      "@Taskline codename test-script\n@Taskline version v1.2.3\n\n"
  {
    var s1 := L.CODENAME_PREFIX + "test-script";
    assert s1 == "@Taskline codename test-script";
    var s2 := s1 + "\n" + L.VERSION_PREFIX;
    assert s2 == "@Taskline codename test-script\n@Taskline version ";
    var s3 := s2 + "v1.2.3";
    assert s3 == "@Taskline codename test-script\n@Taskline version v1.2.3";
    assert s3 + "\n\n" == "@Taskline codename test-script\n@Taskline version v1.2.3\n\n";
  }

  /** ... and for the file name. */
  lemma TargetFileNameExamples()
    ensures TargetFileName("test-script", Some("v1.2.3")) == "test-script.v1.2.3.tskln"
    ensures TargetFileName("test-script", None) == "test-script.tskln"
  {
  }
}
