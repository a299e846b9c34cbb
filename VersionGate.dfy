/** The version gate (`checkClaudeVersion`): find the first `\d+\.\d+\.\d+`
    in the tool's version output and compare it with the configured minimum.
    Running the tool and reading the configuration file are outside the model:
    their results are the inputs `versionOutput` and `minVersion`. */
module VersionGate {
  import opened Wrappers
  import opened Versions

  /** Where a match of the version pattern lies in the output. */
  datatype Span = Span(start: nat, end: nat)

  /** Why the gate stops the installer (each ends the process with exit code 1). */
  datatype VersionError =
    | Unparsable(output: string)
    | TooOld(current: string, minimum: string)

  /** The end of the run of digits that starts at `i`: what a greedy `\d+` consumes. */
  function DigitRunEnd(s: string, i: nat): (e: nat)
    requires i <= |s|
    ensures i <= e <= |s|
    ensures forall k :: i <= k < e ==> IsDigit(s[k])
    ensures e == |s| || !IsDigit(s[e])
    decreases |s| - i
  {
    if i == |s| || !IsDigit(s[i]) then i else DigitRunEnd(s, i + 1)
  }

  /** A run of digits has exactly one end. */
  lemma DigitRunEndUnique(s: string, i: nat, j: nat)
    requires i <= j <= |s|
    requires forall k :: i <= k < j ==> IsDigit(s[k])
    requires j == |s| || !IsDigit(s[j])
    ensures DigitRunEnd(s, i) == j
  {
  }

  /** The end of the match of `\d+\.\d+\.\d+` anchored at `i`, if there is one.
      Each `\d+` is greedy, and a shorter run can never be followed by the
      required dot, so the regex's backtracking never changes the answer. */
  function MatchAt(s: string, i: nat): Option<nat>
    requires i <= |s|
  {
    var e1 := DigitRunEnd(s, i);
    if e1 == i || e1 == |s| || s[e1] != '.' then None
    else
      var e2 := DigitRunEnd(s, e1 + 1);
      if e2 == e1 + 1 || e2 == |s| || s[e2] != '.' then None
      else
        var e3 := DigitRunEnd(s, e2 + 1);
        if e3 == e2 + 1 then None else Some(e3)
  }

  /** What `MatchAt` finds is a well-formed version string. */
  lemma MatchAtSound(s: string, i: nat)
    requires i <= |s| && MatchAt(s, i).Some?
    ensures i < MatchAt(s, i).value <= |s|
    ensures IsVersionText(s[i..MatchAt(s, i).value])
  {
    var e1 := DigitRunEnd(s, i);
    var e2 := DigitRunEnd(s, e1 + 1);
    var e3 := DigitRunEnd(s, e2 + 1);
    var a, b, c := s[i..e1], s[e1 + 1..e2], s[e2 + 1..e3];
    assert s[i..e3] == a + "." + b + "." + c;
    DottedTriple(a, b, c);
  }

  /** A version string starting at `i` is found by `MatchAt`, which reaches at
      least as far: no pattern match starting at `i` is longer than the greedy one. */
  lemma MatchAtComplete(s: string, i: nat, e: nat)
    requires i <= e <= |s|
    requires IsVersionText(s[i..e])
    ensures MatchAt(s, i).Some? && MatchAt(s, i).value >= e
  {
    var t := s[i..e];
    var p := Split(t, '.');
    VersionTextPieces(t);
    var a, b, c := p[0], p[1], p[2];
    DottedLayout(a, b, c);
    var j1 := i + |a|;
    var j2 := j1 + 1 + |b|;
    assert forall k :: i <= k < e ==> s[k] == t[k - i];
    DigitRunEndUnique(s, i, j1);
    DigitRunEndUnique(s, j1 + 1, j2);
    DigitRunReaches(s, j2 + 1, e);
  }

  /** Where the dots and the digits are in a dotted triple. */
  lemma DottedLayout(a: string, b: string, c: string)
    requires a != [] && b != [] && c != []
    requires IsDigits(a) && IsDigits(b) && IsDigits(c)
    ensures var t := a + "." + b + "." + c;
      && |t| == |a| + |b| + |c| + 2
      && t[|a|] == '.' && t[|a| + 1 + |b|] == '.'
      && (forall k :: 0 <= k < |a| ==> IsDigit(t[k]))
      && (forall k :: |a| < k < |a| + 1 + |b| ==> IsDigit(t[k]))
      && (forall k :: |a| + 1 + |b| < k < |t| ==> IsDigit(t[k]))
  {
    var t := a + "." + b + "." + c;
    assert forall k :: 0 <= k < |a| ==> t[k] == a[k];
    assert forall k :: |a| < k < |a| + 1 + |b| ==> t[k] == b[k - |a| - 1];
    assert forall k :: |a| + 1 + |b| < k < |t| ==> t[k] == c[k - |a| - |b| - 2];
  }

  /** A greedy run of digits reaches past every digit that follows it without a gap. */
  lemma DigitRunReaches(s: string, i: nat, e: nat)
    requires i < e <= |s|
    requires forall k :: i <= k < e ==> IsDigit(s[k])
    ensures DigitRunEnd(s, i) >= e
  {
  }

  /** The leftmost match at or after position `i`. */
  function FirstMatchFrom(s: string, i: nat): (m: Option<Span>)
    requires i <= |s|
    ensures m.Some? ==> i <= m.value.start <= |s| && MatchAt(s, m.value.start) == Some(m.value.end)
    ensures m.Some? ==> forall j :: i <= j < m.value.start ==> MatchAt(s, j).None?
    ensures m.None? ==> forall j :: i <= j <= |s| ==> MatchAt(s, j).None?
    decreases |s| - i
  {
    match MatchAt(s, i)
    case Some(e) => Some(Span(i, e))
    case None => if i == |s| then None else FirstMatchFrom(s, i + 1)
  }

  /** `versionOutput.match(/(\d+\.\d+\.\d+)/)`: the position of the first
      match, or none. The match is leftmost, it is a version string, no pattern
      match starts earlier, and none starting at the same place is longer. */
  function FindVersion(s: string): (m: Option<Span>)
    ensures m.None? <==> forall i, e :: 0 <= i <= e <= |s| ==> !IsVersionText(s[i..e])
    ensures m.Some? ==> m.value.start < m.value.end <= |s|
    ensures m.Some? ==> IsVersionText(s[m.value.start..m.value.end])
    ensures m.Some? ==> forall i, e :: 0 <= i < m.value.start && i <= e <= |s| ==> !IsVersionText(s[i..e])
    ensures m.Some? ==> forall e :: m.value.end < e <= |s| ==> !IsVersionText(s[m.value.start..e])
  {
    var m := FirstMatchFrom(s, 0);
    if m.Some? then
      MatchAtSound(s, m.value.start);
      assert forall i, e :: 0 <= i < m.value.start && i <= e <= |s| ==> !IsVersionText(s[i..e]) by {
        forall i, e | 0 <= i < m.value.start && i <= e <= |s| && IsVersionText(s[i..e]) ensures false {
          MatchAtComplete(s, i, e);
        }
      }
      assert forall e :: m.value.end < e <= |s| ==> !IsVersionText(s[m.value.start..e]) by {
        forall e | m.value.end < e <= |s| && IsVersionText(s[m.value.start..e]) ensures false {
          MatchAtComplete(s, m.value.start, e);
        }
      }
      m
    else
      assert forall i, e :: 0 <= i <= e <= |s| ==> !IsVersionText(s[i..e]) by {
        forall i, e | 0 <= i <= e <= |s| && IsVersionText(s[i..e]) ensures false {
          MatchAtComplete(s, i, e);
        }
      }
      m
  }

  /** The matched text itself (`versionMatch[1]`). */
  function ExtractVersion(s: string): (r: Option<string>)
    ensures r.Some? ==> IsVersionText(r.value)
    ensures r.None? <==> FindVersion(s).None?
  {
    match FindVersion(s)
    case None => None
    case Some(span) => Some(s[span.start..span.end])
  }

  /** `checkClaudeVersion` after the tool has answered: reject output without a
      version, reject a version below the minimum, otherwise return the version text. */
  method CheckClaudeVersion(versionOutput: string, minVersion: string) returns (r: Result<string, VersionError>)
    requires IsVersionText(minVersion)
    ensures ExtractVersion(versionOutput).None? ==> r == Failure(Unparsable(versionOutput))
    ensures ExtractVersion(versionOutput).Some? ==>
      var current := ExtractVersion(versionOutput).value;
      r == if AtLeast(ParseVersion(current), ParseVersion(minVersion)) then Success(current)
           else Failure(TooOld(current, minVersion))
  {
    var versionMatch := ExtractVersion(versionOutput);
    if versionMatch.None? {
      return Failure(Unparsable(versionOutput));
    }
    var currentVersion := versionMatch.value;
    var valid := IsVersionValid(currentVersion, minVersion);
    if !valid {
      return Failure(TooOld(currentVersion, minVersion));
    }
    return Success(currentVersion);
  }

  /** Words without digits in front of a version string are skipped: the
      whole version is what the gate extracts. */
  lemma ExtractAfterWords(words: string, version: string)
    requires forall k :: 0 <= k < |words| ==> !IsDigit(words[k])
    requires IsVersionText(version)
    ensures ExtractVersion(words + version) == Some(version)
  {
    var s := words + version;
    assert s[|words|..|s|] == version;
    var m := FindVersion(s);
    assert m.Some?;
    forall j | 0 <= j < |words| ensures MatchAt(s, j).None? {
      assert DigitRunEnd(s, j) == j;
    }
  }

  /** The tool's usual answer: the version is picked out of the banner text. */
  lemma ExtractFromBanner()
    ensures ExtractVersion("claude version 1.0.44") == Some("1.0.44")
  {
    DottedTriple("1", "0", "44");
    assert "1" + "." + "0" + "." + "44" == "1.0.44";
    assert "claude version " + "1.0.44" == "claude version 1.0.44";
    BannerWordsHaveNoDigits();
    ExtractAfterWords("claude version ", "1.0.44");
  }

  lemma BannerWordsHaveNoDigits()
    ensures forall k :: 0 <= k < |"claude version "| ==> !IsDigit("claude version "[k])
  {
  }
}
