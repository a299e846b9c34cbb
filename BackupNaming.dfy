/** The name of the backup directory: the current time as an ISO-8601 string
    (the layout of section 5.6 of RFC 3339 that `Date.prototype.toISOString`
    produces) with `:` and `.` turned into `-`, the milliseconds and zone
    designator cut off, and a fixed prefix in front. The clock itself is an input. */
module BackupNaming {
  import opened Versions

  const BackupPrefix: string := ".claude.backup."

  predicate IsSeparator(c: char) { c == ':' || c == '.' }

  /** `iso.replace(/[:.]/g, '-')`. */
  function ReplaceSeparators(s: string): (r: string)
    ensures |r| == |s|
    ensures ':' !in r && '.' !in r
    ensures forall k :: 0 <= k < |s| && !IsSeparator(s[k]) ==> r[k] == s[k]
    ensures forall k :: 0 <= k < |s| && IsSeparator(s[k]) ==> r[k] == '-'
    decreases |s|
  {
    if s == [] then []
    else [if IsSeparator(s[0]) then '-' else s[0]] + ReplaceSeparators(s[1..])
  }

  /** `s.slice(0, -n)`: everything but the last `n` characters, or nothing
      when the string is shorter. */
  function DropLast(s: string, n: nat): (r: string)
  {
    if |s| <= n then [] else s[..|s| - n]
  }

  /** The timestamp part of the backup directory's name. */
  function BackupStamp(iso: string): string
  {
    DropLast(ReplaceSeparators(iso), 5)
  }

  /** `.claude.backup.${timestamp}`. */
  function BackupDirName(iso: string): (name: string)
    ensures |name| >= |BackupPrefix|
  {
    BackupPrefix + BackupStamp(iso)
  }

  /** The name is the prefix followed by the input with its last five characters
      removed and `:` and `.` mapped to `-`; after the prefix there is no `:` or `.`. */
  lemma BackupDirNameShape(iso: string)
    ensures var name := BackupDirName(iso);
      && name[..|BackupPrefix|] == BackupPrefix
      && |name| == |BackupPrefix| + (if |iso| <= 5 then 0 else |iso| - 5)
      && ':' !in name[|BackupPrefix|..] && '.' !in name[|BackupPrefix|..]
      && forall k :: 0 <= k < |iso| - 5 ==>
           name[|BackupPrefix| + k] == if IsSeparator(iso[k]) then '-' else iso[k]
  {
    var name := BackupDirName(iso);
    var stamp := BackupStamp(iso);
    assert name[|BackupPrefix|..] == stamp;
    var r := ReplaceSeparators(iso);
    if |iso| > 5 {
      assert stamp == r[..|r| - 5];
      forall c | c in stamp ensures c != ':' && c != '.' {
        var k :| 0 <= k < |stamp| && stamp[k] == c;
        assert r[k] == c;
      }
    }
  }

  /** The layout of `toISOString` for years 0000-9999:
      `YYYY-MM-DDTHH:MM:SS.sssZ`. */
  predicate IsIsoTimestamp(s: string)
  {
    && |s| == 24
    && s[4] == '-' && s[7] == '-' && s[10] == 'T'
    && s[13] == ':' && s[16] == ':' && s[19] == '.' && s[23] == 'Z'
    && (forall k :: 0 <= k < 4 ==> IsDigit(s[k]))
    && IsDigit(s[5]) && IsDigit(s[6]) && IsDigit(s[8]) && IsDigit(s[9])
    && IsDigit(s[11]) && IsDigit(s[12]) && IsDigit(s[14]) && IsDigit(s[15])
    && IsDigit(s[17]) && IsDigit(s[18])
    && IsDigit(s[20]) && IsDigit(s[21]) && IsDigit(s[22])
  }

  /** For a timestamp in that layout the name keeps the date and the time to
      the second: `2024-01-02T03:04:05.678Z` gives `.claude.backup.2024-01-02T03-04-05`. */
  lemma BackupDirNameOfTimestamp(iso: string)
    requires IsIsoTimestamp(iso)
    ensures BackupDirName(iso) == BackupPrefix + iso[..13] + "-" + iso[14..16] + "-" + iso[17..19]
  {
    var r := ReplaceSeparators(iso);
    var stamp := BackupStamp(iso);
    assert stamp == r[..19];
    var expected := iso[..13] + "-" + iso[14..16] + "-" + iso[17..19];
    assert |stamp| == |expected| == 19;
    forall k | 0 <= k < 19 ensures stamp[k] == expected[k] {
      if k < 13 {
        assert !IsSeparator(iso[k]);
      } else if 13 < k < 16 || 16 < k {
        assert !IsSeparator(iso[k]);
      }
    }
  }

  /** Two runs get the same backup directory exactly when their clocks agree
      to the second: runs within one second share (and merge into) one backup. */
  lemma SameNameIffSameSecond(a: string, b: string)
    requires IsIsoTimestamp(a) && IsIsoTimestamp(b)
    ensures BackupDirName(a) == BackupDirName(b) <==> a[..19] == b[..19]
  {
    BackupDirNameOfTimestamp(a);
    BackupDirNameOfTimestamp(b);
    var na, nb := BackupDirName(a), BackupDirName(b);
    if na == nb {
      forall k | 0 <= k < 19 ensures a[k] == b[k] {
        assert na[|BackupPrefix| + k] == nb[|BackupPrefix| + k];
        if k != 13 && k != 16 {
          assert na[|BackupPrefix| + k] == a[k];
          assert nb[|BackupPrefix| + k] == b[k];
        }
      }
      assert a[..19] == b[..19];
    }
  }

  /** The backup directory never has the name of the configuration directory
      it backs up, so the copy never writes into its own source. */
  lemma BackupDirNameIsNotConfigDir(iso: string)
    ensures BackupDirName(iso) != ".claude"
  {
  }
}
