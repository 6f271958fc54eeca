/** Path-segment sanitising and shortening (module/helpers.py). Remote titles and
    names become file and folder names through these three functions. */
module Helpers {
  import opened PyStr

  /** The longest folder name the exporter aims for (module/const.py:17). */
  const MaxFolderNameSize: nat := 70

  /** Membership in `valid_chars` of `make_valid_filename`: `-_.() `, the ASCII
      letters and the digits. */
  predicate IsFilenameChar(c: char)
  {
    c == '-' || c == '_' || c == '.' || c == '(' || c == ')' || c == ' '
    || 'a' <= c <= 'z' || 'A' <= c <= 'Z' || '0' <= c <= '9'
  }

  /** Membership in `valid_chars` of `make_valid_folder_path`: the same and `/`. */
  predicate IsFolderChar(c: char)
  {
    IsFilenameChar(c) || c == '/'
  }

  /** A valid character other than the space is not whitespace. */
  lemma ValidNotSpace(c: char)
    requires IsFolderChar(c) && c != ' '
    ensures !IsSpace(c)
  {
  }

  /** The three one-character rewrites `make_valid_filename` applies before
      filtering: `+` (the platform's encoding of a space) becomes a space, `:`
      and `/` become `-`. */
  function Rewrite(c: char): char
  {
    if c == '+' then ' ' else if c == ':' || c == '/' then '-' else c
  }

  /** `.replace("+", " ").replace(":", "-").replace("/", "-")` rewrites each
      character on its own. */
  function Substituted(s: string): (r: string)
    ensures |r| == |s|
    ensures forall i :: 0 <= i < |r| ==> r[i] == Rewrite(s[i])
  {
    var spaced := Replace(s, "+", " ");
    var coloned := Replace(spaced, ":", "-");
    ReplaceOneChar(s, '+', ' ');
    ReplaceOneChar(spaced, ':', '-');
    ReplaceOneChar(coloned, '/', '-');
    Replace(coloned, "/", "-")
  }

  /** Strings made of valid characters have nothing to rewrite. */
  lemma SubstitutedValid(s: string)
    requires All(s, IsFilenameChar)
    ensures Substituted(s) == s
  {
  }

  /** The filtered name, stripped of whitespace at both ends: it starts with no
      space and holds only valid characters. */
  function TrimmedName(s: string): (r: string)
    ensures |r| <= |s|
    ensures All(r, IsFilenameChar)
    ensures r != [] ==> r[0] != ' '
  {
    var kept := Keep(Substituted(s), IsFilenameChar);
    StripEnds(kept, IsSpace, IsFilenameChar);
    Strip(kept, IsSpace)
  }

  /** `make_valid_filename`: an empty input is returned as it is; otherwise the
      rewrites above, every character outside the valid set dropped,
      surrounding whitespace stripped and then trailing periods. */
  function MakeValidFilename(s: string): (r: string)
    ensures s == [] ==> r == []
    ensures |r| <= |s|
    ensures All(r, IsFilenameChar)
    ensures r != [] ==> r[0] != ' ' && r[|r| - 1] != '.'
  {
    if s == [] then s
    else
      var t := TrimmedName(s);
      var r := RStrip(t, IsDot);
      RStripPrefix(t, IsDot);
      SliceChars(t, 0, |r|, IsFilenameChar);
      assert r != [] ==> r[0] == t[0];
      r
  }

  /** The names `MakeValidFilename` leaves alone: the empty name, and names of
      valid characters that start with no space and end with neither a space
      nor a period. */
  predicate IsCleanFilename(s: string)
  {
    s == [] || (All(s, IsFilenameChar) && s[0] != ' ' && s[|s| - 1] != ' ' && s[|s| - 1] != '.')
  }

  /** A name of valid characters with no space at either end survives the
      filtering and the whitespace strip. */
  lemma TrimmedNameKept(s: string)
    requires s != [] && All(s, IsFilenameChar) && s[0] != ' ' && s[|s| - 1] != ' '
    ensures TrimmedName(s) == s
  {
    SubstitutedValid(s);
    KeepAllowed(s, IsFilenameChar);
    ValidNotSpace(s[0]);
    ValidNotSpace(s[|s| - 1]);
    StripUntouched(s, IsSpace);
  }

  /** A clean name goes through every stage unchanged. */
  lemma CleanFilenameKept(s: string)
    requires s != [] && IsCleanFilename(s)
    ensures MakeValidFilename(s) == s
  {
    TrimmedNameKept(s);
    assert RStrip(s, IsDot) == s;
  }

  /** A trailing space never survives: it is valid, so filtering keeps it last,
      and the whitespace strip then removes it. */
  lemma TrailingSpaceDropped(s: string)
    requires s != [] && s[|s| - 1] == ' '
    ensures |MakeValidFilename(s)| < |s|
  {
    var sub := Substituted(s);
    var kept := Keep(sub, IsFilenameChar);
    assert sub[|sub| - 1] == ' ';
    assert kept == Keep(sub[..|sub| - 1], IsFilenameChar) + [' '];
    var left := LStrip(kept, IsSpace);
    LStripSuffix(kept, IsSpace);
    if left != [] {
      assert left[|left| - 1] == ' ';
    }
    assert |TrimmedName(s)| < |s|;
  }

  /** The fixed points of `MakeValidFilename` are exactly the clean names. */
  lemma MakeValidFilenameFixedPoints(s: string)
    ensures MakeValidFilename(s) == s <==> IsCleanFilename(s)
  {
    if s != [] {
      if IsCleanFilename(s) {
        CleanFilenameKept(s);
      } else if s[|s| - 1] == ' ' {
        TrailingSpaceDropped(s);
      }
    }
  }

  /** Not idempotent: the trailing period goes after the whitespace strip, so
      the space before it survives one pass ... */
  lemma MakeValidFilenameFirstPass()
    ensures MakeValidFilename("a .") == "a "
  {
    var s := "a .";
    assert All(s, IsFilenameChar) by {
      assert forall i :: 0 <= i < |s| ==> s[i] in {'a', ' ', '.'};
    }
    TrimmedNameKept(s);
    assert s[..2] == "a ";
    assert RStrip("a ", IsDot) == "a ";
  }

  /** ... and is removed by the next. */
  lemma MakeValidFilenameSecondPass()
    ensures MakeValidFilename("a ") == "a"
  {
    var s := "a ";
    assert All(s, IsFilenameChar) by {
      assert forall i :: 0 <= i < |s| ==> s[i] in {'a', ' '};
    }
    SubstitutedValid(s);
    KeepAllowed(s, IsFilenameChar);
    assert LStrip(s, IsSpace) == s;
    assert s[..1] == "a";
    assert RStrip("a", IsSpace) == "a";
    assert TrimmedName(s) == "a";
    assert RStrip("a", IsDot) == "a";
  }

  /** The rewrites of `make_valid_folder_path`: the same except that `/` stays. */
  function FolderRewrite(c: char): char
  {
    if c == '+' then ' ' else if c == ':' then '-' else c
  }

  /** `.replace("+", " ").replace(":", "-")`. */
  function FolderSubstituted(s: string): (r: string)
    ensures |r| == |s|
    ensures forall i :: 0 <= i < |r| ==> r[i] == FolderRewrite(s[i])
  {
    ReplaceOneChar(s, '+', ' ');
    ReplaceOneChar(Replace(s, "+", " "), ':', '-');
    Replace(Replace(s, "+", " "), ":", "-")
  }

  /** The filtered folder path, stripped of whitespace at both ends. */
  function KeptFolderPath(s: string): (r: string)
    ensures |r| <= |s|
    ensures All(r, IsFolderChar)
  {
    var kept := Keep(FolderSubstituted(s), IsFolderChar);
    StripEnds(kept, IsSpace, IsFolderChar);
    Strip(kept, IsSpace)
  }

  /** Then stripped of `/` at both ends. A folder path has no `\`, so the
      following `strip("\\")` changes nothing. */
  function SlashlessFolderPath(s: string): (r: string)
    ensures |r| <= |s|
    ensures All(r, IsFolderChar)
    ensures r != [] ==> r[0] != '/'
    ensures Strip(r, IsBackslash) == r
  {
    var t := KeptFolderPath(s);
    StripEnds(t, IsSlash, IsFolderChar);
    var r := Strip(t, IsSlash);
    assert r != [] ==> IsFolderChar(r[0]) && IsFolderChar(r[|r| - 1]);
    StripUntouched(r, IsBackslash);
    r
  }

  /** The folder path before its separators are rewritten: filtered to the
      folder characters, stripped of whitespace, then of `/`, then of `\` at
      both ends, then of trailing periods. */
  function TrimmedFolderPath(s: string): (r: string)
    ensures |r| <= |s|
    ensures All(r, IsFolderChar)
    ensures r != [] ==> r[0] != '/' && r[|r| - 1] != '.'
  {
    var slashless := SlashlessFolderPath(s);
    var r := RStrip(Strip(slashless, IsBackslash), IsDot);
    RStripPrefix(slashless, IsDot);
    SliceChars(slashless, 0, |r|, IsFolderChar);
    assert r != [] ==> r[0] == slashless[0];
    r
  }

  /** Writing every `/` of a folder path as `sep` leaves filename characters
      and separators, keeps the first character from being a separator and the
      last from being a period. */
  lemma SeparatorsRewritten(t: string, sep: char)
    requires All(t, IsFolderChar) && (t == [] || (t[0] != '/' && t[|t| - 1] != '.'))
    requires sep == '/' || sep == '\\'
    ensures var r := Replace(t, "/", [sep]);
      && |r| == |t|
      && (forall i :: 0 <= i < |r| ==> IsFilenameChar(r[i]) || r[i] == sep)
      && (r != [] ==> r[0] != sep && r[|r| - 1] != '.')
  {
    ReplaceOneChar(t, '/', sep);
  }

  /** `make_valid_folder_path` with `sep` for `os.sep`: like `MakeValidFilename`
      but `/` is kept as a folder separator, the name is also stripped of `/`
      and `\` at both ends, and every `/` is finally written as `sep`. There is
      no early return for an empty input. */
  function MakeValidFolderPath(s: string, sep: char): (r: string)
    requires sep == '/' || sep == '\\'
    ensures |r| <= |s|
    ensures forall i :: 0 <= i < |r| ==> IsFilenameChar(r[i]) || r[i] == sep
    ensures r != [] ==> r[0] != sep && r[|r| - 1] != '.'
  {
    var t := TrimmedFolderPath(s);
    var r := Replace(t, "/", [sep]);
    SeparatorsRewritten(t, sep);
    assert |r| == |t| <= |s|;
    r
  }

  /** `shorten_file_name`: an empty name or a non-positive `shortenBy` is
      returned as it is; otherwise the name loses its last `shortenBy + 1`
      characters (Python slice semantics, negative bounds included), then
      trailing whitespace, periods and dashes, and gets one `-` marking the cut.
      For `0 < shortenBy < |s|` the result is a prefix of `s` followed by a
      single `-`, and it is at least `shortenBy` characters shorter than `s`. */
  function ShortenFileName(s: string, shortenBy: int): (r: string)
    ensures s == [] || shortenBy <= 0 ==> r == s
    ensures 0 < shortenBy < |s| ==>
      && 1 <= |r| <= |s| - shortenBy
      && r[|r| - 1] == '-'
      && r[..|r| - 1] == s[..|r| - 1]
      && (|r| == 1 || r[|r| - 2] != '-')
  {
    if s == [] || shortenBy <= 0 then s
    else
      var cut := SliceTo(s, |s| - (shortenBy + 1));
      var spaceless := RStrip(cut, IsSpace);
      var dotless := RStrip(spaceless, IsDot);
      var stem := RStrip(dotless, IsDash);
      RStripPrefix(cut, IsSpace);
      RStripPrefix(spaceless, IsDot);
      RStripPrefix(dotless, IsDash);
      assert stem == s[..|stem|];
      assert (stem + "-")[..|stem|] == stem;
      stem + "-"
  }

  /** The negative slice when `shortenBy >= |s|`: the name is not shortened by
      the amount asked for, and may not be shortened at all. */
  lemma ShortenFileNameNegativeSlice()
    ensures ShortenFileName("abc", 3) == "ab-"
    ensures ShortenFileName("abc", 5) == "-"
  {
    assert SliceTo("abc", -1) == "ab";
    assert RStrip("ab", IsSpace) == "ab";
    assert RStrip("ab", IsDot) == "ab";
    assert RStrip("ab", IsDash) == "ab";
    assert SliceTo("abc", -3) == "";
  }

  /** The pattern every caller uses to keep a folder name within
      `MaxFolderNameSize`: `shorten_file_name(name, len(name) - 70)`. */
  function ShortenToMax(name: string): (r: string)
    ensures |name| <= MaxFolderNameSize ==> r == name
    ensures |name| > MaxFolderNameSize ==>
      1 <= |r| <= MaxFolderNameSize && r[|r| - 1] == '-' && r[..|r| - 1] == name[..|r| - 1]
  {
    ShortenFileName(name, |name| - MaxFolderNameSize)
  }

  /** A sanitised folder name, shortened or not, is still made of valid
      characters and is at most `MaxFolderNameSize` long. */
  lemma ShortenToMaxChars(name: string)
    requires All(name, IsFilenameChar)
    ensures var r := ShortenToMax(name);
      |r| <= MaxFolderNameSize && All(r, IsFilenameChar)
  {
    var r := ShortenToMax(name);
    if |name| > MaxFolderNameSize {
      SliceChars(name, 0, |r| - 1, IsFilenameChar);
      assert r == r[..|r| - 1] + "-";
    }
  }

  /** The folder name every caller derives from a remote title: sanitised, then
      shortened to the limit. */
  function FolderName(title: string): (r: string)
    ensures |r| <= MaxFolderNameSize
    ensures All(r, IsFilenameChar)
  {
    ShortenToMaxChars(MakeValidFilename(title));
    ShortenToMax(MakeValidFilename(title))
  }
}
