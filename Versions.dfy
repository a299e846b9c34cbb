/** Dotted version strings and the minimum-version comparison of the installer's
    version gate (`isVersionValid`). */
module Versions {

  /** A version is a triple of non-negative integers. */
  datatype Version = Version(major: nat, minor: nat, patch: nat)

  /** Lexicographic "at least" on triples, most significant component first:
      the reference order the installer's comparison must decide. */
  predicate AtLeast(current: Version, minimum: Version)
  {
    || current.major > minimum.major
    || (current.major == minimum.major && current.minor > minimum.minor)
    || (current.major == minimum.major && current.minor == minimum.minor && current.patch >= minimum.patch)
  }

  // ---------------------------------------------------------------------------
  // Text: `split('.')` and `Number` on decimal digit strings

  predicate IsDigit(c: char) { '0' <= c <= '9' }

  predicate IsDigits(s: string) { forall i :: 0 <= i < |s| ==> IsDigit(s[i]) }

  /** The pieces of `s` between occurrences of `sep`, as JavaScript's
      `String.prototype.split` with a one-character separator returns them
      (an empty string gives one empty piece; adjacent separators give empty pieces). */
  function Split(s: string, sep: char): (parts: seq<string>)
    ensures |parts| >= 1
    ensures forall i :: 0 <= i < |parts| ==> sep !in parts[i]
    decreases |s|
  {
    if s == [] then [[]]
    else
      var rest := Split(s[1..], sep);
      if s[0] == sep then [[]] + rest
      else [[s[0]] + rest[0]] + rest[1..]
  }

  /** The pieces glued back together with `sep` between them. */
  function Join(parts: seq<string>, sep: char): string
    requires |parts| >= 1
    decreases |parts|
  {
    if |parts| == 1 then parts[0] else parts[0] + [sep] + Join(parts[1..], sep)
  }

  /** Splitting undoes joining when no piece contains the separator. */
  lemma {:induction false} SplitJoin(parts: seq<string>, sep: char)
    requires |parts| >= 1
    requires forall i :: 0 <= i < |parts| ==> sep !in parts[i]
    ensures Split(Join(parts, sep), sep) == parts
    decreases |parts|
  {
    if |parts| == 1 {
      SplitNoSeparator(parts[0], sep);
    } else {
      SplitJoin(parts[1..], sep);
      SplitPiece(parts[0], sep, Join(parts[1..], sep));
    }
  }

  /** Joining undoes splitting. */
  lemma {:induction false} JoinSplit(s: string, sep: char)
    ensures Join(Split(s, sep), sep) == s
    decreases |s|
  {
    if s != [] {
      JoinSplit(s[1..], sep);
      var rest := Split(s[1..], sep);
      if s[0] == sep {
        assert Split(s, sep) == [[]] + rest;
        assert ([[]] + rest)[1..] == rest;
      } else {
        var parts := Split(s, sep);
        assert parts == [[s[0]] + rest[0]] + rest[1..];
        if |rest| == 1 {
          assert Join(parts, sep) == [s[0]] + rest[0];
        } else {
          assert parts[1..] == rest[1..];
          assert Join(parts, sep) == [s[0]] + rest[0] + [sep] + Join(rest[1..], sep);
          assert s[1..] == Join(rest, sep) == rest[0] + [sep] + Join(rest[1..], sep);
        }
      }
    }
  }

  lemma {:induction false} SplitNoSeparator(s: string, sep: char)
    requires sep !in s
    ensures Split(s, sep) == [s]
    decreases |s|
  {
    if s != [] {
      SplitNoSeparator(s[1..], sep);
      assert [s[0]] + s[1..] == s;
    }
  }

  /** A separator-free piece followed by the separator is split off whole. */
  lemma {:induction false} SplitPiece(a: string, sep: char, t: string)
    requires sep !in a
    ensures Split(a + [sep] + t, sep) == [a] + Split(t, sep)
    decreases |a|
  {
    if a == [] {
      assert a + [sep] + t == [sep] + t;
      assert ([sep] + t)[1..] == t;
    } else {
      SplitPiece(a[1..], sep, t);
      assert (a + [sep] + t)[1..] == a[1..] + [sep] + t;
      assert [a[0]] + a[1..] == a;
    }
  }

  function DigitValue(c: char): nat
    requires IsDigit(c)
  {
    (c as int - '0' as int) as nat
  }

  function DigitChar(d: nat): (c: char)
    requires d < 10
    ensures IsDigit(c) && DigitValue(c) == d
  {
    ('0' as int + d) as char
  }

  /** JavaScript's `Number` on a decimal digit string (leading zeros allowed). */
  function NumberValue(s: string): nat
    requires IsDigits(s)
    decreases |s|
  {
    if s == [] then 0 else NumberValue(s[..|s| - 1]) * 10 + DigitValue(s[|s| - 1])
  }

  /** The canonical decimal rendering of a natural number. */
  function DecimalText(n: nat): (s: string)
    ensures s != [] && IsDigits(s)
    decreases n
  {
    if n < 10 then [DigitChar(n)] else DecimalText(n / 10) + [DigitChar(n % 10)]
  }

  lemma {:induction false} NumberValueOfDecimalText(n: nat)
    ensures NumberValue(DecimalText(n)) == n
    decreases n
  {
    if n >= 10 {
      NumberValueOfDecimalText(n / 10);
      var s := DecimalText(n);
      assert s[..|s| - 1] == DecimalText(n / 10);
    }
  }

  // ---------------------------------------------------------------------------
  // Well-formed version strings

  /** Three non-empty runs of decimal digits separated by dots: the strings the
      comparison is defined on. */
  predicate IsVersionText(s: string)
  {
    var parts := Split(s, '.');
    |parts| == 3 && forall i :: 0 <= i < 3 ==> parts[i] != [] && IsDigits(parts[i])
  }

  /** `s.split('.').map(Number)` on a well-formed version string. */
  function Components(s: string): (parts: seq<nat>)
    requires IsVersionText(s)
    ensures |parts| == 3
  {
    var pieces := Split(s, '.');
    [NumberValue(pieces[0]), NumberValue(pieces[1]), NumberValue(pieces[2])]
  }

  function ParseVersion(s: string): Version
    requires IsVersionText(s)
  {
    var c := Components(s);
    Version(c[0], c[1], c[2])
  }

  function FormatVersion(v: Version): string
  {
    DecimalText(v.major) + "." + DecimalText(v.minor) + "." + DecimalText(v.patch)
  }

  /** Three digit runs joined by dots form a version string, read back piece by piece. */
  lemma DottedTriple(a: string, b: string, c: string)
    requires a != [] && b != [] && c != []
    requires IsDigits(a) && IsDigits(b) && IsDigits(c)
    ensures Split(a + "." + b + "." + c, '.') == [a, b, c]
    ensures IsVersionText(a + "." + b + "." + c)
  {
    assert '.' !in a;
    assert '.' !in b;
    assert '.' !in c;
    assert [a, b, c][1..] == [b, c] && [b, c][1..] == [c];
    assert Join([b, c], '.') == b + "." + c;
    assert Join([a, b, c], '.') == a + "." + b + "." + c;
    SplitJoin([a, b, c], '.');
  }

  /** Every well-formed version string is three digit runs joined by dots. */
  lemma VersionTextPieces(s: string)
    requires IsVersionText(s)
    ensures var p := Split(s, '.'); s == p[0] + "." + p[1] + "." + p[2]
  {
    var p := Split(s, '.');
    JoinSplit(s, '.');
    assert p[1..][1..] == [p[2]];
    assert Join(p[1..], '.') == p[1] + "." + p[2];
    assert Join(p, '.') == p[0] + "." + p[1] + "." + p[2];
  }

  /** Every triple has a dotted form that parses back to it. */
  lemma ParseFormat(v: Version)
    ensures IsVersionText(FormatVersion(v))
    ensures ParseVersion(FormatVersion(v)) == v
  {
    DottedTriple(DecimalText(v.major), DecimalText(v.minor), DecimalText(v.patch));
    NumberValueOfDecimalText(v.major);
    NumberValueOfDecimalText(v.minor);
    NumberValueOfDecimalText(v.patch);
  }

  // ---------------------------------------------------------------------------
  // The comparison

  /** `isVersionValid(current, minimum)`: compare the numeric components most
      significant first and decide at the first difference; equal versions pass. */
  method IsVersionValid(current: string, minimum: string) returns (valid: bool)
    requires IsVersionText(current) && IsVersionText(minimum)
    ensures valid <==> AtLeast(ParseVersion(current), ParseVersion(minimum))
  {
    var currentParts := Components(current);
    var minimumParts := Components(minimum);
    var i := 0;
    while i < 3
      invariant 0 <= i <= 3
      invariant forall k :: 0 <= k < i ==> currentParts[k] == minimumParts[k]
    {
      if currentParts[i] > minimumParts[i] { return true; }
      if currentParts[i] < minimumParts[i] { return false; }
      i := i + 1;
    }
    return true;
  }

  // ---------------------------------------------------------------------------
  // Properties of the order

  lemma AtLeastReflexive(v: Version)
    ensures AtLeast(v, v)
  {
  }

  /** Any two versions are comparable in at least one direction. */
  lemma AtLeastTotal(a: Version, b: Version)
    ensures AtLeast(a, b) || AtLeast(b, a)
  {
  }

  /** Both directions hold only for equal versions. */
  lemma AtLeastAntisymmetric(a: Version, b: Version)
    ensures AtLeast(a, b) && AtLeast(b, a) <==> a == b
  {
  }

  lemma AtLeastTransitive(a: Version, b: Version, c: Version)
    requires AtLeast(a, b) && AtLeast(b, c)
    ensures AtLeast(a, c)
  {
  }

  /** The first differing component decides, whatever the later ones are. */
  lemma FirstDifferenceDecides(a: Version, b: Version)
    ensures a.major != b.major ==> (AtLeast(a, b) <==> a.major > b.major)
    ensures a.major == b.major && a.minor != b.minor ==> (AtLeast(a, b) <==> a.minor > b.minor)
    ensures a.major == b.major && a.minor == b.minor ==> (AtLeast(a, b) <==> a.patch >= b.patch)
  {
  }

  /** Components are compared as numbers, not as text: 1.10.0 passes a 1.9.0
      minimum although "10" sorts before "9" character by character. */
  lemma NumericNotTextual()
    ensures IsVersionText("1.10.0") && IsVersionText("1.9.0")
    ensures ParseVersion("1.10.0") == Version(1, 10, 0)
    ensures ParseVersion("1.9.0") == Version(1, 9, 0)
    ensures AtLeast(ParseVersion("1.10.0"), ParseVersion("1.9.0"))
    ensures !AtLeast(ParseVersion("1.9.0"), ParseVersion("1.10.0"))
  {
    ParsesOneTenZero();
    ParsesOneNineZero();
  }

  lemma ParsesOneTenZero()
    ensures IsVersionText("1.10.0") && ParseVersion("1.10.0") == Version(1, 10, 0)
  {
    DottedTriple("1", "10", "0");
    assert "1" + "." + "10" + "." + "0" == "1.10.0";
    assert NumberValue("10") == 10 by { assert "10"[..1] == "1"; }
  }

  lemma ParsesOneNineZero()
    ensures IsVersionText("1.9.0") && ParseVersion("1.9.0") == Version(1, 9, 0)
  {
    DottedTriple("1", "9", "0");
    assert "1" + "." + "9" + "." + "0" == "1.9.0";
  }

  /** Three sample comparisons: 2.0.0 passes 1.9.9, 1.9.9 fails 2.0.0,
      and 1.2.3 passes itself. */
  lemma ComparisonExamples()
    ensures AtLeast(Version(2, 0, 0), Version(1, 9, 9))
    ensures !AtLeast(Version(1, 9, 9), Version(2, 0, 0))
    ensures AtLeast(Version(1, 2, 3), Version(1, 2, 3))
  {
  }
}
