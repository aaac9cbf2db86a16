/** get_version: the three-part version read from the project manifest.

    setup.py searches the manifest text with the multi-line pattern
    `^version = "(\d+)\.(\d+)\.(\d+)"`. No part of that pattern matches a
    newline, so a match lies within one line and begins at the start of that
    line; the search returns the first such line. Here the text is split on
    '\n' and each line is matched directly. */
module Version {
  import opened Wrappers
  import opened Text

  datatype Version = Version(major: nat, minor: nat, patch: nat)

  /** The three digit strings the pattern's groups capture. */
  datatype VersionMatch = VersionMatch(major: string, minor: string, patch: string)

  const Prefix: string := "version = \""

  /** Each group is one or more ASCII digits. */
  predicate WellFormed(m: VersionMatch)
  {
    |m.major| >= 1 && AllDigits(m.major)
    && |m.minor| >= 1 && AllDigits(m.minor)
    && |m.patch| >= 1 && AllDigits(m.patch)
  }

  /** The text the pattern matches for the given groups. */
  function Render(m: VersionMatch): string
  {
    Prefix + m.major + "." + m.minor + "." + m.patch + "\""
  }

  /** `tuple(map(int, match.groups()))`. */
  function ValueOf(m: VersionMatch): Version
    requires WellFormed(m)
  {
    Version(DecimalValue(m.major), DecimalValue(m.minor), DecimalValue(m.patch))
  }

  /** The length of the run of digits at the front of `s` (what a greedy `\d+`
      consumes). */
  function DigitRun(s: string): (n: nat)
    ensures n <= |s|
    ensures AllDigits(s[..n])
    ensures n < |s| ==> !IsDigit(s[n])
  {
    if s == [] || !IsDigit(s[0]) then 0
    else
      var n := 1 + DigitRun(s[1..]);
      assert s[..n] == [s[0]] + s[1..][..n - 1];
      n
  }

  /** A digit group followed by the character `stop`, at the front of `s`:
      the digits and what follows `stop`. */
  function Group(s: string, stop: char): Option<(string, string)>
  {
    var n := DigitRun(s);
    if n == 0 || n == |s| || s[n] != stop then None
    else Some((s[..n], s[n + 1..]))
  }

  /** The pattern anchored at the start of one line. */
  function MatchLine(line: string): Option<VersionMatch>
  {
    if !StartsWith(line, Prefix) then None
    else
      match Group(line[|Prefix|..], '.')
      case None => None
      case Some((major, s2)) =>
        match Group(s2, '.')
        case None => None
        case Some((minor, s3)) =>
          match Group(s3, '"')
          case None => None
          case Some((patch, _)) => Some(VersionMatch(major, minor, patch))
  }

  /** A run of digits stops exactly where the digits stop. */
  lemma {:induction false} DigitRunOf(d: string, t: string)
    requires AllDigits(d)
    requires t == [] || !IsDigit(t[0])
    ensures DigitRun(d + t) == |d|
  {
    if d != [] {
      assert (d + t)[1..] == d[1..] + t;
      DigitRunOf(d[1..], t);
    } else {
      assert d + t == t;
    }
  }

  lemma GroupOf(d: string, stop: char, t: string)
    requires |d| >= 1 && AllDigits(d) && !IsDigit(stop)
    ensures Group(d + [stop] + t, stop) == Some((d, t))
  {
    var s := d + [stop] + t;
    assert s == d + ([stop] + t);
    DigitRunOf(d, [stop] + t);
    assert s[..|d|] == d && s[|d| + 1..] == t;
  }

  lemma GroupSound(s: string, stop: char)
    requires Group(s, stop).Some?
    ensures var (d, t) := Group(s, stop).value;
      |d| >= 1 && AllDigits(d) && s == d + [stop] + t
  {
    var n := DigitRun(s);
    assert s == s[..n] + [s[n]] + s[n + 1..];
  }

  /** The rendering followed by more text, grouped the way the matcher reads it. */
  lemma RenderThen(m: VersionMatch, tail: string)
    ensures Render(m) + tail
         == Prefix + (m.major + ['.'] + (m.minor + ['.'] + (m.patch + ['"'] + tail)))
  {
  }

  /** Every well-formed rendering matches, whatever follows it on the line. */
  lemma MatchLineComplete(m: VersionMatch, tail: string)
    requires WellFormed(m)
    ensures MatchLine(Render(m) + tail) == Some(m)
  {
    var s3 := m.patch + ['"'] + tail;
    var s2 := m.minor + ['.'] + s3;
    var s1 := m.major + ['.'] + s2;
    RenderThen(m, tail);
    assert (Prefix + s1)[..|Prefix|] == Prefix && (Prefix + s1)[|Prefix|..] == s1;
    GroupOf(m.major, '.', s2);
    GroupOf(m.minor, '.', s3);
    GroupOf(m.patch, '"', tail);
  }

  /** Whatever matches starts with the rendering of well-formed groups. */
  lemma MatchLineSound(line: string)
    requires MatchLine(line).Some?
    ensures WellFormed(MatchLine(line).value)
    ensures StartsWith(line, Render(MatchLine(line).value))
  {
    var s1 := line[|Prefix|..];
    assert line == Prefix + s1;
    GroupSound(s1, '.');
    var (major, s2) := Group(s1, '.').value;
    GroupSound(s2, '.');
    var (minor, s3) := Group(s2, '.').value;
    GroupSound(s3, '"');
    var (patch, tail) := Group(s3, '"').value;
    var m := VersionMatch(major, minor, patch);
    assert MatchLine(line) == Some(m);
    RenderThen(m, tail);
    assert line == Render(m) + tail;
    assert line[..|Render(m)|] == Render(m);
  }

  /** A line matches exactly when it starts with the rendering of well-formed
      groups; the groups are then the ones returned. Text after the closing
      quote is allowed; any other spacing, or indentation, is not. */
  lemma MatchLineIff(line: string, m: VersionMatch)
    ensures MatchLine(line) == Some(m) <==> WellFormed(m) && StartsWith(line, Render(m))
  {
    if WellFormed(m) && StartsWith(line, Render(m)) {
      var tail := line[|Render(m)|..];
      assert line == Render(m) + tail;
      MatchLineComplete(m, tail);
    }
    if MatchLine(line) == Some(m) {
      MatchLineSound(line);
    }
  }

  /** The index of the first present entry, as `re.search` finds the
      leftmost match. */
  function FirstSome<T>(xs: seq<Option<T>>): (r: Option<nat>)
    ensures r.None? <==> forall j :: 0 <= j < |xs| ==> xs[j].None?
    ensures r.Some? ==> r.value < |xs| && xs[r.value].Some?
    ensures r.Some? ==> forall j :: 0 <= j < r.value ==> xs[j].None?
  {
    if xs == [] then None
    else if xs[0].Some? then Some(0)
    else
      match FirstSome(xs[1..])
      case None => None
      case Some(i) => Some(i + 1)
  }

  /** The lines of the manifest: the text split on '\n'. */
  function Lines(text: string): seq<string>
  {
    Split(text, '\n')
  }

  /** The pattern tried on each line. */
  function Matches(lines: seq<string>): (r: seq<Option<VersionMatch>>)
    ensures |r| == |lines|
    ensures forall i :: 0 <= i < |lines| ==> r[i] == MatchLine(lines[i])
  {
    seq(|lines|, i requires 0 <= i < |lines| => MatchLine(lines[i]))
  }

  /** get_version: the version on the first matching line, or the fatal
      RuntimeError when no line matches. No default is ever substituted. */
  function GetVersion(text: string): (r: Result<Version>)
    ensures r.Err? <==> forall j :: 0 <= j < |Lines(text)| ==> MatchLine(Lines(text)[j]).None?
    ensures r.Err? ==> r.error == VersionNotFound
  {
    var ms := Matches(Lines(text));
    match FirstSome(ms)
    case None => Err(VersionNotFound)
    case Some(i) =>
      MatchLineSound(Lines(text)[i]);
      Ok(ValueOf(ms[i].value))
  }

  /** Round trip: when line `i` starts with `version = "A.B.C"` for digit
      strings A, B, C and no earlier line matches, the result is the integer
      values of A, B and C. */
  lemma GetVersionOf(text: string, i: nat, m: VersionMatch)
    requires i < |Lines(text)|
    requires forall j :: 0 <= j < i ==> MatchLine(Lines(text)[j]).None?
    requires WellFormed(m) && StartsWith(Lines(text)[i], Render(m))
    ensures GetVersion(text) == Ok(ValueOf(m))
  {
    MatchLineIff(Lines(text)[i], m);
    var ms := Matches(Lines(text));
    assert ms[i] == Some(m);
    var k := FirstSome(ms).value;
    assert k == i by {
      assert !(k < i) && !(i < k);
    }
  }

  /** A line without '\n' in front of the rest of the text is its first line. */
  lemma LinesCons(line: string, rest: string)
    requires '\n' !in line
    ensures Lines(line + "\n" + rest) == [line] + Lines(rest)
  {
    var t := "\n" + rest;
    assert line + "\n" + rest == line + t;
    SplitPrefix(line, t, '\n');
    assert t[0] == '\n' && t[1..] == rest;
    var st := Split(t, '\n');
    assert st == [[]] + Split(rest, '\n');
    assert st[0] == [] && st[1..] == Split(rest, '\n');
    assert line + [] == line;
  }

  /** A version line right after one line that does not match is the one
      found. */
  lemma GetVersionAfterHeader(header: string, line: string, rest: string, m: VersionMatch)
    requires '\n' !in header && '\n' !in line && MatchLine(header).None?
    requires WellFormed(m) && StartsWith(line, Render(m))
    ensures GetVersion(header + "\n" + line + "\n" + rest) == Ok(ValueOf(m))
  {
    var rest2 := line + "\n" + rest;
    var text := header + "\n" + line + "\n" + rest;
    assert text == header + "\n" + rest2;
    LinesCons(header, rest2);
    LinesCons(line, rest);
    var ls := Lines(text);
    assert ls == [header] + ([line] + Lines(rest));
    assert ls[0] == header && ls[1] == line;
    GetVersionOf(text, 1, m);
  }
}
