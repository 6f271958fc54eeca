/** The handful of Python `str` operations the exporter relies on, with CPython's
    semantics for the arguments the exporter passes them. Strings are `seq<char>`. */
module PyStr {

  /** The characters `str.isspace` accepts: what a bare `strip()`, `lstrip()` or
      `rstrip()` removes. */
  predicate IsSpace(c: char)
  {
    || c == ' ' || '\t' <= c <= '\r' || '\U{1C}' <= c <= '\U{1F}'
    || c == '\U{85}' || c == '\U{A0}' || c == '\U{1680}' || '\U{2000}' <= c <= '\U{200A}'
    || c == '\U{2028}' || c == '\U{2029}' || c == '\U{202F}' || c == '\U{205F}' || c == '\U{3000}'
  }

  /** The one-character arguments the source passes to `strip`, `lstrip` and
      `rstrip`. */
  predicate IsDot(c: char) { c == '.' }
  predicate IsDash(c: char) { c == '-' }
  predicate IsSlash(c: char) { c == '/' }
  predicate IsBackslash(c: char) { c == '\\' }
  predicate IsQuote(c: char) { c == '"' }

  /** Every character of `s` satisfies `p`. */
  predicate All(s: string, p: char -> bool)
  {
    forall i :: 0 <= i < |s| ==> p(s[i])
  }

  lemma AllConcat(a: string, b: string, p: char -> bool)
    requires All(a, p) && All(b, p)
    ensures All(a + b, p)
  {
    forall i | 0 <= i < |a + b|
      ensures p((a + b)[i])
    {
      if i >= |a| {
        assert (a + b)[i] == b[i - |a|];
      }
    }
  }

  /** `pat` occurs in `s` starting at index `i`. */
  predicate OccursAt(s: string, pat: string, i: nat)
  {
    i + |pat| <= |s| && s[i..i + |pat|] == pat
  }

  /** `s.replace(pat, rep)` for a non-empty `pat`: one left-to-right pass that
      rewrites the leftmost occurrence, resumes after it, and never looks at the
      text it has produced. */
  function Replace(s: string, pat: string, rep: string): string
    requires pat != []
    decreases |s|
  {
    if |s| < |pat| then s
    else if s[..|pat|] == pat then rep + Replace(s[|pat|..], pat, rep)
    else [s[0]] + Replace(s[1..], pat, rep)
  }

  /** Replacing one character by one character is a pointwise substitution. */
  lemma {:induction false} ReplaceOneChar(s: string, a: char, b: char)
    ensures |Replace(s, [a], [b])| == |s|
    ensures forall i :: 0 <= i < |s| ==> Replace(s, [a], [b])[i] == if s[i] == a then b else s[i]
  {
    if s != [] {
      ReplaceOneChar(s[1..], a, b);
      assert s[..1] == [a] <==> s[0] == a;
    }
  }

  /** A replacement no longer than its pattern never lengthens the text, and a
      property of every character of `s` and of `rep` holds of every character
      of the result. */
  lemma {:induction false} ReplaceShrinks(s: string, pat: string, rep: string, p: char -> bool)
    requires pat != [] && |rep| <= |pat|
    ensures |Replace(s, pat, rep)| <= |s|
    ensures All(s, p) && All(rep, p) ==> All(Replace(s, pat, rep), p)
  {
    if |s| >= |pat| {
      if s[..|pat|] == pat {
        ReplaceShrinks(s[|pat|..], pat, rep, p);
      } else {
        ReplaceShrinks(s[1..], pat, rep, p);
      }
    }
  }

  /** An occurrence in `s[1..]` is an occurrence in `s` one place later. */
  lemma OccursShift(s: string, pat: string, i: nat)
    requires s != []
    ensures OccursAt(s[1..], pat, i) <==> OccursAt(s, pat, i + 1)
  {
    if i + |pat| <= |s[1..]| {
      assert s[1..][i..i + |pat|] == s[i + 1..i + 1 + |pat|];
    }
  }

  /** When `pat` does not occur in `s`, the replacement leaves `s` alone. */
  lemma {:induction false} ReplaceAbsent(s: string, pat: string, rep: string)
    requires pat != []
    requires forall i: nat :: !OccursAt(s, pat, i)
    ensures Replace(s, pat, rep) == s
  {
    if |s| >= |pat| {
      assert !OccursAt(s, pat, 0);
      forall i: nat ensures !OccursAt(s[1..], pat, i) {
        OccursShift(s, pat, i);
        assert !OccursAt(s, pat, i + 1);
      }
      ReplaceAbsent(s[1..], pat, rep);
    }
  }

  /** A replacement shorter than its pattern strictly shortens any text in
      which the pattern occurs. */
  lemma {:induction false} ReplaceShortens(s: string, pat: string, rep: string, i: nat)
    requires pat != [] && |rep| < |pat|
    requires OccursAt(s, pat, i)
    ensures |Replace(s, pat, rep)| < |s|
  {
    if s[..|pat|] == pat {
      ReplaceShrinks(s[|pat|..], pat, rep, IsDot);
    } else {
      assert i != 0;
      OccursShift(s, pat, i - 1);
      ReplaceShortens(s[1..], pat, rep, i - 1);
    }
  }

  /** `"".join(c for c in s if c in valid_chars)`, with `allowed` deciding
      membership in `valid_chars`: the allowed characters of `s`, in their order. */
  function Keep(s: string, allowed: char -> bool): (r: string)
    ensures |r| <= |s|
    ensures All(r, allowed)
  {
    if s == [] then []
    else Keep(s[..|s| - 1], allowed) + (if allowed(s[|s| - 1]) then [s[|s| - 1]] else [])
  }

  /** Filtering one character keeps it exactly when it is allowed. */
  lemma KeepOne(c: char, allowed: char -> bool)
    ensures Keep([c], allowed) == if allowed(c) then [c] else []
  {
    assert [c][..0] == [];
  }

  /** Filtering works piece by piece: the allowed characters of `s + t` are
      those of `s` followed by those of `t`. With `KeepOne`, this determines
      the result on every input: every allowed character survives, in order. */
  lemma {:induction false} KeepConcat(s: string, t: string, allowed: char -> bool)
    ensures Keep(s + t, allowed) == Keep(s, allowed) + Keep(t, allowed)
  {
    if t == [] {
      assert s + t == s;
    } else {
      var init := t[..|t| - 1];
      KeepConcat(s, init, allowed);
      assert (s + t)[..|s + t| - 1] == s + init;
      assert (s + t)[|s + t| - 1] == t[|t| - 1];
    }
  }

  /** Filtering a string made only of allowed characters changes nothing. */
  lemma {:induction false} KeepAllowed(s: string, allowed: char -> bool)
    requires All(s, allowed)
    ensures Keep(s, allowed) == s
  {
    if s != [] {
      var init := s[..|s| - 1];
      KeepAllowed(init, allowed);
      assert s == init + [s[|s| - 1]];
    }
  }

  /** What holds of every character of `s` holds of every character of a piece
      of it. */
  lemma SliceChars(s: string, lo: nat, hi: nat, p: char -> bool)
    requires lo <= hi <= |s|
    requires All(s, p)
    ensures All(s[lo..hi], p)
  {
    assert forall i :: 0 <= i < hi - lo ==> s[lo..hi][i] == s[lo + i];
  }

  /** `s.lstrip(chars)`, with `drop` deciding membership in `chars`: drops the
      longest prefix of dropped characters. */
  function LStrip(s: string, drop: char -> bool): (r: string)
    ensures |r| <= |s|
    ensures r == [] || !drop(r[0])
  {
    if s != [] && drop(s[0]) then LStrip(s[1..], drop) else s
  }

  /** `LStrip` keeps a suffix. */
  lemma {:induction false} LStripSuffix(s: string, drop: char -> bool)
    ensures LStrip(s, drop) == s[|s| - |LStrip(s, drop)|..]
  {
    if s != [] && drop(s[0]) {
      LStripSuffix(s[1..], drop);
    }
  }

  /** What `LStrip` removes are dropped characters only, so it removes the
      longest such prefix. */
  lemma {:induction false} LStripDropped(s: string, drop: char -> bool)
    ensures forall i :: 0 <= i < |s| - |LStrip(s, drop)| ==> drop(s[i])
  {
    if s != [] && drop(s[0]) {
      LStripDropped(s[1..], drop);
      assert forall i :: 1 <= i < |s| - |LStrip(s, drop)| ==> s[i] == s[1..][i - 1];
    }
  }

  /** `s.rstrip(chars)`, with `drop` deciding membership in `chars`: drops the
      longest suffix of dropped characters. */
  function RStrip(s: string, drop: char -> bool): (r: string)
    ensures |r| <= |s|
    ensures r == [] || !drop(r[|r| - 1])
  {
    if s != [] && drop(s[|s| - 1]) then RStrip(s[..|s| - 1], drop) else s
  }

  /** `RStrip` keeps a prefix. */
  lemma {:induction false} RStripPrefix(s: string, drop: char -> bool)
    ensures RStrip(s, drop) == s[..|RStrip(s, drop)|]
  {
    if s != [] && drop(s[|s| - 1]) {
      RStripPrefix(s[..|s| - 1], drop);
    }
  }

  /** What `RStrip` removes are dropped characters only, so it removes the
      longest such suffix. */
  lemma {:induction false} RStripDropped(s: string, drop: char -> bool)
    ensures forall i :: |RStrip(s, drop)| <= i < |s| ==> drop(s[i])
  {
    if s != [] && drop(s[|s| - 1]) {
      RStripDropped(s[..|s| - 1], drop);
    }
  }

  /** `s.strip(chars)`: both ends. */
  function Strip(s: string, drop: char -> bool): string
  {
    RStrip(LStrip(s, drop), drop)
  }

  /** Stripping a string whose ends are kept changes nothing. */
  lemma StripUntouched(s: string, drop: char -> bool)
    requires s == [] || (!drop(s[0]) && !drop(s[|s| - 1]))
    ensures LStrip(s, drop) == s && RStrip(s, drop) == s && Strip(s, drop) == s
  {
  }

  /** A string with no dropped character is left alone. */
  lemma StripNone(s: string, drop: char -> bool)
    requires forall i :: 0 <= i < |s| ==> !drop(s[i])
    ensures Strip(s, drop) == s
  {
    StripUntouched(s, drop);
  }

  /** A stripped string neither starts nor ends with a dropped character, and
      what holds of every character of `s` holds of every character of it. */
  lemma StripEnds(s: string, drop: char -> bool, p: char -> bool)
    ensures var r := Strip(s, drop);
      && (r == [] || (!drop(r[0]) && !drop(r[|r| - 1])))
      && (All(s, p) ==> All(r, p))
  {
    var l := LStrip(s, drop);
    var r := RStrip(l, drop);
    LStripSuffix(s, drop);
    RStripPrefix(l, drop);
    if r != [] {
      assert r[0] == l[0];
    }
    if All(s, p) {
      SliceChars(s, |s| - |l|, |s|, p);
      SliceChars(l, 0, |r|, p);
    }
  }

  /** `s[:k]`, including Python's reading of a negative `k` as `len(s) + k`. */
  function SliceTo(s: string, k: int): (r: string)
    ensures |r| <= |s| && r == s[..|r|]
    ensures 0 <= k <= |s| ==> |r| == k
    ensures k < 0 ==> |r| == if |s| + k >= 0 then |s| + k else 0
  {
    if k >= |s| then s
    else if k >= 0 then s[..k]
    else if |s| + k >= 0 then s[..|s| + k]
    else []
  }

  /** `s.split(marker)[0]` for a non-empty `marker`: the text before the first
      occurrence of `marker`, or all of `s` when there is none. */
  function BeforeFirst(s: string, marker: string): string
    requires marker != []
    decreases |s|
  {
    if |s| < |marker| then s
    else if s[..|marker|] == marker then []
    else [s[0]] + BeforeFirst(s[1..], marker)
  }

  /** What `BeforeFirst` returns: a prefix of `s` in which `marker` does not start,
      ending where `marker` first occurs or at the end of `s`. */
  lemma {:induction false} BeforeFirstSpec(s: string, marker: string)
    requires marker != []
    ensures var r := BeforeFirst(s, marker);
      && |r| <= |s| && r == s[..|r|]
      && (forall i: nat :: i < |r| ==> !OccursAt(s, marker, i))
      && (OccursAt(s, marker, |r|) || (|r| == |s| && forall i: nat :: !OccursAt(s, marker, i)))
  {
    if |s| < |marker| {
    } else if s[..|marker|] == marker {
      assert OccursAt(s, marker, 0);
    } else {
      var t := s[1..];
      BeforeFirstSpec(t, marker);
      var q := BeforeFirst(t, marker);
      forall i: nat ensures OccursAt(t, marker, i) <==> OccursAt(s, marker, i + 1) {
        OccursShift(s, marker, i);
      }
      assert !OccursAt(s, marker, 0);
      assert forall i: nat :: i < |q| + 1 ==> !OccursAt(s, marker, i) by {
        forall i: nat | i < |q| + 1 ensures !OccursAt(s, marker, i) {
          if i > 0 {
            assert !OccursAt(t, marker, i - 1);
          }
        }
      }
      if !OccursAt(t, marker, |q|) {
        forall i: nat ensures !OccursAt(s, marker, i) {
          if i > 0 {
            assert !OccursAt(t, marker, i - 1);
          }
        }
      }
    }
  }

  /** `sep.join(xs)`. */
  function Join(xs: seq<string>, sep: string): string
  {
    if xs == [] then []
    else if |xs| == 1 then xs[0]
    else xs[0] + sep + Join(xs[1..], sep)
  }

  /** The decimal digit of `d`. */
  function Digit(d: nat): char
    requires d < 10
  {
    "0123456789"[d]
  }

  /** `str(n)` for a non-negative integer: its decimal numeral, no leading zeros. */
  function Decimal(n: nat): (r: string)
    ensures r != []
    ensures forall i :: 0 <= i < |r| ==> '0' <= r[i] <= '9'
  {
    if n < 10 then [Digit(n)] else Decimal(n / 10) + [Digit(n % 10)]
  }

  /** The value of a string of decimal digits. */
  function DecimalValue(s: string): nat
  {
    if s == [] then 0
    else
      var d := s[|s| - 1] as int - '0' as int;
      10 * DecimalValue(s[..|s| - 1]) + (if 0 <= d < 10 then d else 0)
  }

  /** Reading the numeral back gives the number: `int(str(n)) == n`. */
  lemma {:induction false} DecimalRoundTrip(n: nat)
    ensures DecimalValue(Decimal(n)) == n
  {
    if n >= 10 {
      DecimalRoundTrip(n / 10);
      var s := Decimal(n);
      assert s[..|s| - 1] == Decimal(n / 10);
    }
  }

  /** So distinct numbers have distinct numerals. */
  lemma DecimalInjective(j: nat, k: nat)
    requires Decimal(j) == Decimal(k)
    ensures j == k
  {
    DecimalRoundTrip(j);
    DecimalRoundTrip(k);
  }
}
