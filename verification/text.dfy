/**
  The pieces of Rust's standard library the Taskline tools lean on, stated as
  functions: `str::split` on one character, joining with a separator,
  `str::lines`, `u32::from_str` and the `{}` rendering of an unsigned integer.

  A Rust `&str` is modelled by its UTF-8 bytes: every character of a Dafny
  `string` here stands for one byte. Every literal the tools compare against is
  ASCII, so nothing below depends on multi-byte characters.
*/
module Text {
  import opened Wrappers

  /** Rust's `u32`. */
  type u32 = x: int | 0 <= x < 0x1_0000_0000

  const U32_MAX: nat := 0xFFFF_FFFF

  predicate IsDigit(c: char) { '0' <= c <= '9' }

  predicate AllDigits(s: string) { forall i :: 0 <= i < |s| ==> IsDigit(s[i]) }

  function DigitValue(c: char): nat
    requires IsDigit(c)
  {
    c as int - '0' as int
  }

  function DigitChar(d: nat): char
    requires d < 10
  {
    (48 + d) as char
  }

  /** Value of a string of decimal digits, most significant first; the empty string is 0. */
  function DigitsValue(s: string): nat
    requires AllDigits(s)
    decreases |s|
  {
    if s == [] then 0 else 10 * DigitsValue(s[..|s| - 1]) + DigitValue(s[|s| - 1])
  }

  /** Rust's `{}` rendering of an unsigned integer: decimal, no sign, no padding. */
  function NatToString(n: nat): (r: string)
    ensures |r| >= 1 && AllDigits(r)
    ensures DigitsValue(r) == n
    ensures n == 0 ==> r == "0"
    ensures n > 0 ==> r[0] != '0'
    decreases n
  {
    if n < 10 then [DigitChar(n)]
    else
      var r := NatToString(n / 10) + [DigitChar(n % 10)];
      assert r[..|r| - 1] == NatToString(n / 10);
      r
  }

  /** `u32::from_str`: an optional leading '+', then one or more ASCII digits
      (leading zeros allowed) whose value is below 2^32. */
  function ParseU32(s: string): (r: Option<u32>)
  {
    var digits := if |s| > 0 && s[0] == '+' then s[1..] else s;
    if digits != [] && AllDigits(digits) && DigitsValue(digits) < 0x1_0000_0000 then
      Some(DigitsValue(digits))
    else
      None
  }

  /** Every decimal rendering of a `u32` reads back as that value, and nothing
      `u32::from_str` accepts is empty, signed with '-', or holds a '.'. */
  lemma ParseU32Decimal(n: nat)
    requires n <= U32_MAX
    ensures ParseU32(NatToString(n)) == Some(n)
  {
    var s := NatToString(n);
    assert s[0] != '+' by { assert IsDigit(s[0]); }
  }

  lemma ParseU32Rejects(s: string)
    requires s == [] || s[0] == '-' || '.' in s
    ensures ParseU32(s) == None
  {
    var digits := if |s| > 0 && s[0] == '+' then s[1..] else s;
    if s != [] {
      assert !AllDigits(digits) by {
        if s[0] == '-' {
          assert digits[0] == '-';
        } else {
          var i :| 0 <= i < |s| && s[i] == '.';
          if s[0] == '+' {
            assert digits[i - 1] == '.';
          } else {
            assert digits[i] == '.';
          }
        }
      }
    }
  }

  /** `parts` joined with `sep` between consecutive parts; no separator before
      the first part or after the last. */
  function Join(parts: seq<string>, sep: string): string
    decreases |parts|
  {
    if parts == [] then []
    else if |parts| == 1 then parts[0]
    else Join(parts[..|parts| - 1], sep) + sep + parts[|parts| - 1]
  }

  /** `str::split(sep)` with a one-character separator: the pieces between
      separators, always at least one ("" splits into [""]). Defined by
      peeling the last character. */
  function Split(s: string, sep: char): (r: seq<string>)
    ensures |r| >= 1
    ensures forall i :: 0 <= i < |r| ==> sep !in r[i]
    decreases |s|
  {
    if s == [] then [[]]
    else
      var p := Split(s[..|s| - 1], sep);
      var c := s[|s| - 1];
      if c == sep then p + [[]] else p[..|p| - 1] + [p[|p| - 1] + [c]]
  }

  /** `Join` undoes `Split`: the pieces with the separator put back are the text. */
  lemma {:induction false} JoinSplit(s: string, sep: char)
    ensures Join(Split(s, sep), [sep]) == s
    decreases |s|
  {
    if s != [] {
      var s' := s[..|s| - 1];
      var c := s[|s| - 1];
      var p := Split(s', sep);
      JoinSplit(s', sep);
      assert s == s' + [c];
      var r := Split(s, sep);
      var k := |p| - 1;
      if c == sep {
        assert r == p + [[]];
        assert r[..|r| - 1] == p;
      } else {
        assert r == p[..k] + [p[k] + [c]];
        assert r[..k] == p[..k];
        if k > 0 {
          assert Join(p, [sep]) == Join(p[..k], [sep]) + [sep] + p[k];
        }
      }
    }
  }

  /** One more character: a separator opens a new, empty piece; anything
      else extends the last piece. */
  lemma SplitSnoc(x: string, c: char, sep: char)
    ensures Split(x + [c], sep) == if c == sep then Split(x, sep) + [[]]
      else Split(x, sep)[..|Split(x, sep)| - 1] + [Split(x, sep)[|Split(x, sep)| - 1] + [c]]
  {
    assert (x + [c])[..|x|] == x;
  }

  /** `SplitSnoc` for a separator: a new, empty piece ... */
  lemma SplitSnocSep(x: string, sep: char)
    ensures Split(x + [sep], sep) == Split(x, sep) + [[]]
  {
    SplitSnoc(x, sep, sep);
  }

  /** ... and for any other character: the last piece grows, the others stay. */
  lemma SplitSnocOther(x: string, c: char, sep: char)
    requires c != sep
    ensures |Split(x + [c], sep)| == |Split(x, sep)|
    ensures forall j :: 0 <= j < |Split(x, sep)| - 1 ==> Split(x + [c], sep)[j] == Split(x, sep)[j]
    ensures Split(x + [c], sep)[|Split(x, sep)| - 1] == Split(x, sep)[|Split(x, sep)| - 1] + [c]
  {
    SplitSnoc(x, c, sep);
  }

  /** One more digit: the value is shifted one decimal place. */
  lemma DigitsValueSnoc(s: string, c: char)
    requires AllDigits(s) && IsDigit(c)
    ensures AllDigits(s + [c])
    ensures DigitsValue(s + [c]) == 10 * DigitsValue(s) + DigitValue(c)
  {
    assert (s + [c])[..|s|] == s;
  }

  /** Appending text without a separator only extends the last piece. */
  lemma {:induction false} SplitExtend(x: string, t: string, sep: char)
    requires sep !in t
    ensures Split(x + t, sep)
      == Split(x, sep)[..|Split(x, sep)| - 1] + [Split(x, sep)[|Split(x, sep)| - 1] + t]
    decreases |t|
  {
    if t == [] {
      var q := Split(x, sep);
      assert x + t == x;
      assert q[|q| - 1] + t == q[|q| - 1];
      assert q == q[..|q| - 1] + [q[|q| - 1]];
    } else {
      var t' := t[..|t| - 1];
      var c := t[|t| - 1];
      assert t == t' + [c];
      assert x + t == x + t' + [c];
      assert c != sep by { assert t[|t| - 1] in t; }
      assert sep !in t' by {
        forall j | 0 <= j < |t'| ensures t'[j] != sep { assert t'[j] == t[j]; }
      }
      SplitExtend(x, t', sep);
      SplitExtendStep(x, t', c, sep);
    }
  }

  /** The step of `SplitExtend`: one more character that is not the separator. */
  lemma SplitExtendStep(x: string, t: string, c: char, sep: char)
    requires c != sep
    requires var q := Split(x, sep); Split(x + t, sep) == q[..|q| - 1] + [q[|q| - 1] + t]
    ensures var q := Split(x, sep); Split(x + t + [c], sep) == q[..|q| - 1] + [q[|q| - 1] + (t + [c])]
  {
    var q := Split(x, sep);
    var p := Split(x + t, sep);
    assert Split(x + t + [c], sep) == p[..|p| - 1] + [p[|p| - 1] + [c]] by {
      assert (x + t + [c])[..|x + t|] == x + t;
    }
    assert p[..|p| - 1] == q[..|q| - 1];
    assert p[|p| - 1] + [c] == q[|q| - 1] + (t + [c]);
  }

  /** Three parts joined. */
  lemma JoinThree(parts: seq<string>, sep: string)
    requires |parts| == 3
    ensures Join(parts, sep) == parts[0] + sep + parts[1] + sep + parts[2]
  {
    assert parts[..2][..1] == [parts[0]];
    assert Join(parts[..2], sep) == parts[0] + sep + parts[1];
  }

  /** `Split` undoes `Join` whenever no part contains the separator. */
  lemma {:induction false} SplitJoin(parts: seq<string>, sep: char)
    requires |parts| >= 1
    requires forall i :: 0 <= i < |parts| ==> sep !in parts[i]
    ensures Split(Join(parts, [sep]), sep) == parts
    decreases |parts|
  {
    var n := |parts|;
    if n == 1 {
      SplitExtend([], parts[0], sep);
      assert [] + parts[0] == parts[0];
    } else {
      var init := parts[..n - 1];
      assert forall i :: 0 <= i < |init| ==> init[i] == parts[i];
      SplitJoin(init, sep);
      assert sep !in parts[n - 1];
      assert Join(parts, [sep]) == Join(init, [sep]) + [sep] + parts[n - 1];
      SplitSepExtend(Join(init, [sep]), parts[n - 1], sep);
      assert init + [parts[n - 1]] == parts;
    }
  }

  /** A separator followed by a text free of it adds that text as a piece. */
  lemma SplitSepExtend(x: string, t: string, sep: char)
    requires sep !in t
    ensures Split(x + [sep] + t, sep) == Split(x, sep) + [t]
  {
    var y := x + [sep];
    SplitSnocSep(x, sep);
    SplitExtend(y, t, sep);
    var q := Split(y, sep);
    assert q[..|q| - 1] == Split(x, sep);
    assert q[|q| - 1] + t == t;
  }

  /** Splitting a longer text keeps every finished piece of a prefix, and the
      piece the prefix was still building only grows. */
  lemma {:induction false} SplitPrefix(x: string, y: string, sep: char)
    ensures |Split(x + y, sep)| >= |Split(x, sep)|
    ensures forall j :: 0 <= j < |Split(x, sep)| - 1 ==> Split(x + y, sep)[j] == Split(x, sep)[j]
    ensures Split(x, sep)[|Split(x, sep)| - 1] <= Split(x + y, sep)[|Split(x, sep)| - 1]
    decreases |y|
  {
    if y == [] {
      assert x + y == x;
    } else {
      var y' := y[..|y| - 1];
      SplitPrefix(x, y', sep);
      assert (x + y)[..|x + y| - 1] == x + y';
    }
  }

  /** A character absent from the text is absent from every piece. */
  lemma {:induction false} SplitAvoids(s: string, sep: char, ch: char)
    requires ch !in s
    ensures forall i :: 0 <= i < |Split(s, sep)| ==> ch !in Split(s, sep)[i]
    decreases |s|
  {
    if s != [] {
      var s' := s[..|s| - 1];
      assert ch !in s' by {
        forall j | 0 <= j < |s'| ensures s'[j] != ch { assert s'[j] == s[j]; }
      }
      SplitAvoids(s', sep, ch);
      assert s[|s| - 1] in s;
    }
  }

  /** The pieces of a text made of digits and separators are digit strings. */
  lemma {:induction false} SplitDigits(s: string, sep: char)
    requires forall i :: 0 <= i < |s| ==> IsDigit(s[i]) || s[i] == sep
    ensures forall i :: 0 <= i < |Split(s, sep)| ==> AllDigits(Split(s, sep)[i])
    decreases |s|
  {
    if s != [] {
      SplitDigits(s[..|s| - 1], sep);
    }
  }

  predicate EndsWithCR(l: string) { |l| > 0 && l[|l| - 1] == '\r' }

  function StripCR(l: string): string
  {
    if EndsWithCR(l) then l[..|l| - 1] else l
  }

  /** Rust's `str::lines`: split at '\n'; a piece that was ended by '\n' loses
      one trailing '\r'; a final empty piece (after a trailing '\n', or the
      empty text) is not a line. */
  function Lines(s: string): (r: seq<string>)
    ensures forall i :: 0 <= i < |r| ==> '\n' !in r[i]
  {
    var pieces := Split(s, '\n');
    var n := |pieces|;
    var ended := seq(n - 1, i requires 0 <= i < n - 1 => StripCR(pieces[i]));
    assert forall i :: 0 <= i < n - 1 ==> '\n' !in ended[i] by {
      forall i | 0 <= i < n - 1 ensures '\n' !in ended[i] {
        assert forall j :: 0 <= j < |ended[i]| ==> ended[i][j] == pieces[i][j];
      }
    }
    if pieces[n - 1] == [] then ended else ended + [pieces[n - 1]]
  }

  /** A line that holds neither line-break character survives `Join` and `Lines`. */
  predicate NoBreak(l: string) { '\n' !in l && '\r' !in l }

  /** Reading back joined lines gives the lines again, except that a final
      empty line is swallowed by the newline before it. */
  lemma LinesOfJoin(ls: seq<string>)
    requires forall i :: 0 <= i < |ls| ==> '\n' !in ls[i] && !EndsWithCR(ls[i])
    ensures Lines(Join(ls, "\n")) == if ls != [] && ls[|ls| - 1] == [] then ls[..|ls| - 1] else ls
  {
    if ls == [] {
      assert Split([], '\n') == [[]];
    } else {
      SplitJoin(ls, '\n');
      LinesOfPieces(Join(ls, "\n"), ls);
    }
  }

  lemma LinesOfPieces(s: string, ls: seq<string>)
    requires |ls| >= 1 && Split(s, '\n') == ls
    requires forall i :: 0 <= i < |ls| ==> !EndsWithCR(ls[i])
    ensures Lines(s) == if ls[|ls| - 1] == [] then ls[..|ls| - 1] else ls
  {
    var n := |ls|;
    var ended := seq(n - 1, i requires 0 <= i < n - 1 => StripCR(ls[i]));
    assert ended == ls[..n - 1];
    assert ls == ls[..n - 1] + [ls[n - 1]];
  }

  /** Text without '\r' yields lines without '\r'. */
  lemma LinesAvoidCR(s: string)
    requires '\r' !in s
    ensures forall i :: 0 <= i < |Lines(s)| ==> NoBreak(Lines(s)[i])
  {
    SplitAvoids(s, '\n', '\r');
    var pieces := Split(s, '\n');
    var r := Lines(s);
    forall i | 0 <= i < |r| ensures '\r' !in r[i] {
      assert forall j :: 0 <= j < |r[i]| ==> r[i][j] == pieces[i][j];
    }
  }

  /** "a.b.c" for three numbers, as `format!("{}.{}.{}", a, b, c)` renders them. */
  function DottedTriple(a: nat, b: nat, c: nat): string
  {
    NatToString(a) + "." + NatToString(b) + "." + NatToString(c)
  }

  lemma SplitDottedTriple(a: nat, b: nat, c: nat)
    ensures Split(DottedTriple(a, b, c), '.') == [NatToString(a), NatToString(b), NatToString(c)]
  {
    var parts := [NatToString(a), NatToString(b), NatToString(c)];
    forall i | 0 <= i < 3 ensures '.' !in parts[i] {
      assert forall j :: 0 <= j < |parts[i]| ==> IsDigit(parts[i][j]);
    }
    assert Join(parts, ".") == DottedTriple(a, b, c) by {
      assert parts[..2][..1] == [NatToString(a)];
      assert Join(parts[..2], ".") == NatToString(a) + "." + NatToString(b);
    }
    SplitJoin(parts, '.');
  }
}
