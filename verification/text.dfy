/** The Python `str` operations the scripts rely on, over strings of code points. */
module Text {
  import opened Wrappers
  import Seqs

  /** Python's `str.isspace` for one code point: the characters `strip`, `rstrip`, `split()`
      and the regular-expression class `\s` treat as whitespace. */
  predicate IsSpace(c: char) {
    || '\t' <= c <= '\r'
    || '\U{1C}' <= c <= ' '
    || c == '\U{85}' || c == '\U{A0}' || c == '\U{1680}'
    || '\U{2000}' <= c <= '\U{200A}'
    || c == '\U{2028}' || c == '\U{2029}' || c == '\U{202F}' || c == '\U{205F}' || c == '\U{3000}'
  }

  predicate AllSpace(s: string) {
    forall i :: 0 <= i < |s| ==> IsSpace(s[i])
  }

  /** `s.rstrip()`: the longest prefix of `s` that does not end in whitespace. */
  function RStrip(s: string): (r: string)
    ensures |r| <= |s| && r == s[..|r|]
    ensures AllSpace(s[|r|..])
    ensures r == [] || !IsSpace(r[|r| - 1])
    decreases |s|
  {
    if |s| == 0 || !IsSpace(s[|s| - 1]) then s else RStrip(s[..|s| - 1])
  }

  /** `s.lstrip()`: the longest suffix of `s` that does not start with whitespace. */
  function LStrip(s: string): (r: string)
    ensures |r| <= |s| && r == s[|s| - |r|..]
    ensures AllSpace(s[..|s| - |r|])
    ensures r == [] || !IsSpace(r[0])
    decreases |s|
  {
    if |s| == 0 || !IsSpace(s[0]) then s else LStrip(s[1..])
  }

  /** `s.strip()`: `s` without its leading and trailing whitespace. */
  function Strip(s: string): (r: string)
    ensures Trimmed(r)
    ensures r == [] <==> AllSpace(s)
    ensures SpaceAround(s, r)
  {
    var t := RStrip(s);
    var u := LStrip(t);
    StripSlice(s, t, u);
    assert SliceWithSpace(s, |t| - |u|, u);
    u
  }

  /** `r` is a slice of `s` with only whitespace before and after it. */
  ghost predicate SpaceAround(s: string, r: string) {
    exists a: nat :: SliceWithSpace(s, a, r)
  }

  /** `r` is the slice of `s` at `a`, with only whitespace before and after it. */
  predicate SliceWithSpace(s: string, a: nat, r: string) {
    a <= |s| - |r| && r == s[a..a + |r|] && AllSpace(s[..a]) && AllSpace(s[a + |r|..])
  }

  /** What `LStrip` leaves of `RStrip`'s result is a slice of `s` with only whitespace around it. */
  lemma StripSlice(s: string, t: string, u: string)
    requires t == RStrip(s) && u == LStrip(t)
    ensures u == [] <==> AllSpace(s)
    ensures |u| <= |t| && SliceWithSpace(s, |t| - |u|, u)
    ensures Trimmed(u)
  {
    StripSliceBounds(s, t, u);
    StripSliceAround(s, t, u);
    StripSliceEmpty(s, t, u);
    if u != [] {
      assert u[|u| - 1] == t[|t| - 1];
    }
  }

  lemma StripSliceBounds(s: string, t: string, u: string)
    requires t == RStrip(s) && u == LStrip(t)
    ensures var a := |t| - |u|; 0 <= a <= |s| - |u| && u == s[a..a + |u|]
  {
    var a := |t| - |u|;
    assert t == s[..|t|];
    assert u == t[a..];
  }

  lemma StripSliceAround(s: string, t: string, u: string)
    requires t == RStrip(s) && u == LStrip(t)
    ensures var a := |t| - |u|; AllSpace(s[..a]) && AllSpace(s[a + |u|..])
  {
    var a := |t| - |u|;
    assert s[..a] == t[..a];
    assert s[a + |u|..] == s[|t|..];
  }

  lemma StripSliceEmpty(s: string, t: string, u: string)
    requires t == RStrip(s) && u == LStrip(t)
    ensures u == [] ==> AllSpace(s)
  {
    if u == [] {
      assert t[..|t|] == t;
      assert t == [];
      assert s[|t|..] == s;
    }
  }

  /** Text with no whitespace at either end. */
  predicate Trimmed(t: string) {
    t == [] || (!IsSpace(t[0]) && !IsSpace(t[|t| - 1]))
  }

  /** `s[a..a + n]` is a non-empty trimmed slice with only whitespace around it. */
  predicate CoreAt(s: string, a: nat, n: nat) {
    0 < n && a + n <= |s| && !IsSpace(s[a]) && !IsSpace(s[a + n - 1])
    && AllSpace(s[..a]) && AllSpace(s[a + n..])
  }

  /** Whitespace-only prefixes and suffixes, position by position. */
  lemma AllSpaceAround(s: string, a: nat)
    requires a <= |s|
    ensures AllSpace(s[..a]) ==> forall i :: 0 <= i < a ==> IsSpace(s[i])
    ensures AllSpace(s[a..]) ==> forall i :: a <= i < |s| ==> IsSpace(s[i])
  {
    if AllSpace(s[..a]) {
      forall i | 0 <= i < a
        ensures IsSpace(s[i])
      {
        assert s[..a][i] == s[i];
      }
    }
    if AllSpace(s[a..]) {
      forall i | a <= i < |s|
        ensures IsSpace(s[i])
      {
        assert s[a..][i - a] == s[i];
      }
    }
  }

  /** A string has at most one non-empty trimmed core. */
  lemma CoreUnique(s: string, a: nat, n: nat, b: nat, m: nat)
    requires CoreAt(s, a, n) && CoreAt(s, b, m)
    ensures a == b && n == m
  {
    AllSpaceAround(s, a);
    AllSpaceAround(s, b);
    AllSpaceAround(s, a + n);
    AllSpaceAround(s, b + m);
  }

  /** Padding trimmed text puts it at the core of the result. */
  lemma PaddedCore(pre: string, t: string, post: string)
    requires AllSpace(pre) && AllSpace(post) && Trimmed(t) && t != []
    ensures CoreAt(pre + t + post, |pre|, |t|)
    ensures (pre + t + post)[|pre|..|pre| + |t|] == t
  {
    var s := pre + t + post;
    assert s[..|pre|] == pre;
    assert s[|pre| + |t|..] == post;
    assert s[|pre|] == t[0];
  }

  /** Whitespace around whitespace is whitespace. */
  lemma PaddedSpace(pre: string, post: string)
    requires AllSpace(pre) && AllSpace(post)
    ensures AllSpace(pre + post)
  {
    var s := pre + post;
    forall i | 0 <= i < |s|
      ensures IsSpace(s[i])
    {
      if i < |pre| { assert s[i] == pre[i]; } else { assert s[i] == post[i - |pre|]; }
    }
  }

  /** The text `strip` keeps is the core of a string that has one. */
  lemma StripIsCore(s: string)
    requires Strip(s) != []
    ensures exists a: nat :: CoreAt(s, a, |Strip(s)|) && Strip(s) == s[a..a + |Strip(s)|]
  {
    var r := Strip(s);
    assert SpaceAround(s, r) && Trimmed(r);
    var a: nat :| SliceWithSpace(s, a, r);
    SliceIsCore(s, a, r);
  }

  lemma SliceIsCore(s: string, a: nat, r: string)
    requires SliceWithSpace(s, a, r) && Trimmed(r) && r != []
    ensures CoreAt(s, a, |r|) && r == s[a..a + |r|]
  {
    assert r[0] == s[a] && r[|r| - 1] == s[a + |r| - 1];
  }

  /** `strip` removes exactly the whitespace around trimmed text: it recovers `t` from any
      padding of it. */
  lemma StripPadded(pre: string, t: string, post: string)
    requires AllSpace(pre) && AllSpace(post) && Trimmed(t)
    ensures Strip(pre + t + post) == t
  {
    var s := pre + t + post;
    if t == [] {
      assert s == pre + post;
      PaddedSpace(pre, post);
    } else {
      PaddedCore(pre, t, post);
      assert !AllSpace(s) by {
        assert s[|pre|] == t[0];
      }
      StripIsCore(s);
      var a: nat :| CoreAt(s, a, |Strip(s)|) && Strip(s) == s[a..a + |Strip(s)|];
      CoreUnique(s, a, |Strip(s)|, |pre|, |t|);
    }
  }
  /** A newline-terminated line of trimmed text strips back to the text. */
  lemma StripLine(t: string)
    requires Trimmed(t)
    ensures Strip(t + "\n") == t
  {
    assert AllSpace("\n") by {
      assert IsSpace("\n"[0]);
    }
    assert t + "\n" == [] + t + "\n";
    StripPadded([], t, "\n");
  }


  /** `s.startswith(p)`. */
  predicate StartsWith(s: string, p: string) {
    |p| <= |s| && s[..|p|] == p
  }

  /** `pat` occurs in `s` starting at position `i`. */
  predicate OccursAt(s: string, pat: string, i: nat) {
    i + |pat| <= |s| && s[i..i + |pat|] == pat
  }

  /** `pat in s`. */
  predicate Occurs(s: string, pat: string) {
    exists i: nat :: i <= |s| && OccursAt(s, pat, i)
  }

  /** An occurrence in `s[1..]` is an occurrence in `s`, one position later. */
  lemma OccursAtTail(s: string, pat: string, i: nat)
    requires |s| > 0 && OccursAt(s[1..], pat, i)
    ensures OccursAt(s, pat, i + 1)
  {
    assert s[1..][i..i + |pat|] == s[i + 1..i + 1 + |pat|];
  }

  /** `s.replace(pat, rep)`: every non-overlapping occurrence of `pat`, scanned left to right,
      replaced by `rep`. */
  function ReplaceAll(s: string, pat: string, rep: string): (r: string)
    requires |pat| > 0
    decreases |s|
  {
    if |s| < |pat| then s
    else if s[..|pat|] == pat then rep + ReplaceAll(s[|pat|..], pat, rep)
    else [s[0]] + ReplaceAll(s[1..], pat, rep)
  }

  /** Text in which `pat` does not occur is left as it is. */
  lemma {:induction false} ReplaceAllAbsent(s: string, pat: string, rep: string)
    requires |pat| > 0 && !Occurs(s, pat)
    ensures ReplaceAll(s, pat, rep) == s
    decreases |s|
  {
    if |s| >= |pat| {
      assert !OccursAt(s, pat, 0);
      assert !Occurs(s[1..], pat) by {
        forall i: nat | i <= |s[1..]|
          ensures !OccursAt(s[1..], pat, i)
        {
          assert !OccursAt(s, pat, i + 1);
          if i + |pat| <= |s[1..]| {
            assert s[1..][i..i + |pat|] == s[i + 1..i + 1 + |pat|];
          }
        }
      }
      ReplaceAllAbsent(s[1..], pat, rep);
      assert s == [s[0]] + s[1..];
    }
  }

  /** The first occurrence of `pat` is replaced and the text before it is kept verbatim. */
  lemma {:induction false} ReplaceAllFirstOccurrence(a: string, pat: string, rep: string, b: string)
    requires |pat| > 0
    requires forall i: nat :: i < |a| ==> !OccursAt(a + pat + b, pat, i)
    ensures ReplaceAll(a + pat + b, pat, rep) == a + rep + ReplaceAll(b, pat, rep)
    decreases |a|
  {
    var s := a + pat + b;
    if |a| == 0 {
      assert s == pat + b;
      ReplaceAllLeading(pat, rep, b);
    } else {
      var a' := a[1..];
      assert s[0] == a[0] && s[1..] == a' + pat + b;
      ReplaceAllSkip(s, pat, rep);
      NoOccurrenceInTail(s, pat, |a|);
      ReplaceAllFirstOccurrence(a', pat, rep, b);
      assert [a[0]] + a' == a;
    }
  }

  /** Positions free of `pat` stay free, one place earlier, once the first character is dropped. */
  lemma NoOccurrenceInTail(s: string, pat: string, n: nat)
    requires 0 < n <= |s|
    requires forall i: nat :: i < n ==> !OccursAt(s, pat, i)
    ensures forall i: nat :: i < n - 1 ==> !OccursAt(s[1..], pat, i)
  {
    forall i: nat | i < n - 1
      ensures !OccursAt(s[1..], pat, i)
    {
      assert !OccursAt(s, pat, i + 1);
      if i + |pat| <= |s[1..]| {
        assert s[1..][i..i + |pat|] == s[i + 1..i + 1 + |pat|];
      }
    }
  }

  /** A leading occurrence is replaced and the scan goes on after it. */
  lemma ReplaceAllLeading(pat: string, rep: string, b: string)
    requires |pat| > 0
    ensures ReplaceAll(pat + b, pat, rep) == rep + ReplaceAll(b, pat, rep)
  {
    var s := pat + b;
    assert s[..|pat|] == pat;
    assert s[|pat|..] == b;
  }

  /** Where `pat` does not start the text, the first character is kept and the scan moves on. */
  lemma ReplaceAllSkip(s: string, pat: string, rep: string)
    requires |pat| > 0 && |s| > 0 && !OccursAt(s, pat, 0)
    ensures ReplaceAll(s, pat, rep) == [s[0]] + ReplaceAll(s[1..], pat, rep)
  {
  }

  /** An occurrence inside the second part of a concatenation is an occurrence in that part. */
  lemma OccursAtRight(a: string, b: string, pat: string, i: nat)
    requires |a| <= i && OccursAt(a + b, pat, i)
    ensures OccursAt(b, pat, i - |a|)
  {
    assert (a + b)[i..i + |pat|] == b[i - |a|..i - |a| + |pat|];
  }

  /** When the first character of `pat` is absent from `a`, `pat` occurs in `a + b` only
      where it occurs in `b`. */
  lemma NoOccurrenceAcross(a: string, b: string, pat: string)
    requires |pat| > 0 && pat[0] !in a && !Occurs(b, pat)
    ensures !Occurs(a + b, pat)
  {
    forall i: nat | i <= |a + b| && OccursAt(a + b, pat, i)
      ensures false
    {
      assert (a + b)[i..i + |pat|][0] == (a + b)[i];
      if i >= |a| {
        OccursAtRight(a, b, pat, i);
      }
    }
  }

  /** `pat` does not start anywhere in `lo..hi` when no position there holds its first two
      characters. */
  lemma NoOccurrenceByPair(s: string, pat: string, lo: nat, hi: nat)
    requires |pat| >= 2
    requires forall i :: lo <= i < hi && i + 1 < |s| ==> s[i] != pat[0] || s[i + 1] != pat[1]
    ensures forall i: nat :: lo <= i < hi ==> !OccursAt(s, pat, i)
  {
    forall i: nat | lo <= i < hi && i + |pat| <= |s|
      ensures !OccursAt(s, pat, i)
    {
      assert s[i] != pat[0] || s[i + 1] != pat[1];
      assert s[i..i + |pat|][0] == s[i] && s[i..i + |pat|][1] == s[i + 1];
    }
  }

  /** Replacing a pattern by itself changes nothing. */
  lemma {:induction false} ReplaceAllBySelf(s: string, pat: string)
    requires |pat| > 0
    ensures ReplaceAll(s, pat, pat) == s
    decreases |s|
  {
    if |s| >= |pat| {
      if s[..|pat|] == pat {
        ReplaceAllBySelf(s[|pat|..], pat);
        assert s == pat + s[|pat|..];
      } else {
        ReplaceAllBySelf(s[1..], pat);
        assert s == [s[0]] + s[1..];
      }
    }
  }

  /** `sep.join(parts)`. */
  function Join(parts: seq<string>, sep: char): string
    decreases |parts|
  {
    if |parts| == 0 then ""
    else if |parts| == 1 then parts[0]
    else parts[0] + [sep] + Join(parts[1..], sep)
  }

  /** `s.split(sep)` for a one-character separator: the pieces between separators, always at
      least one (an empty `s` gives `[""]`). */
  function SplitOn(s: string, sep: char): (parts: seq<string>)
    ensures |parts| >= 1
    ensures forall k :: 0 <= k < |parts| ==> sep !in parts[k]
    ensures Join(parts, sep) == s
    decreases |s|
  {
    if sep !in s then [s]
    else
      var i := Seqs.FirstIndex(s, sep);
      var rest := SplitOn(s[i + 1..], sep);
      assert s == s[..i] + [sep] + s[i + 1..];
      [s[..i]] + rest
  }

  /** Splitting a join of separator-free pieces gives the pieces back. */
  lemma {:induction false} SplitOnJoin(parts: seq<string>, sep: char)
    requires |parts| >= 1
    requires forall k :: 0 <= k < |parts| ==> sep !in parts[k]
    ensures SplitOn(Join(parts, sep), sep) == parts
    decreases |parts|
  {
    if |parts| > 1 {
      JoinHead(parts, sep);
      assert forall k :: 0 <= k < |parts| - 1 ==> parts[1..][k] == parts[k + 1];
      SplitOnJoin(parts[1..], sep);
      assert parts == [parts[0]] + parts[1..];
    }
  }

  /** The first separator of a join ends its first piece. */
  lemma JoinHead(parts: seq<string>, sep: char)
    requires |parts| > 1 && sep !in parts[0]
    ensures sep in Join(parts, sep)
    ensures Seqs.FirstIndex(Join(parts, sep), sep) == |parts[0]|
    ensures Join(parts, sep)[..|parts[0]|] == parts[0]
    ensures Join(parts, sep)[|parts[0]| + 1..] == Join(parts[1..], sep)
  {
    var s := Join(parts, sep);
    var rest := Join(parts[1..], sep);
    assert s == parts[0] + [sep] + rest;
    assert s[|parts[0]|] == sep;
    assert forall j :: 0 <= j < |parts[0]| ==> s[j] == parts[0][j];
    assert s[..|parts[0]|] == parts[0];
    assert s[|parts[0]| + 1..] == rest;
  }

  predicate IsDigit(c: char) {
    '0' <= c <= '9'
  }

  predicate AllDigits(s: string) {
    forall i :: 0 <= i < |s| ==> IsDigit(s[i])
  }

  /** The value of a string of decimal digits (`""` is 0). */
  function DigitsValue(s: string): nat
    requires AllDigits(s)
    decreases |s|
  {
    if |s| == 0 then 0 else DigitsValue(s[..|s| - 1]) * 10 + (s[|s| - 1] as int - '0' as int)
  }

  /** `str(n)` for a natural number: its shortest decimal numeral. */
  function NatToString(n: nat): (s: string)
    ensures |s| >= 1 && AllDigits(s)
    ensures DigitsValue(s) == n
    ensures s[0] != '0' || n == 0
    decreases n
  {
    var d := [('0' as int + n % 10) as char];
    if n < 10 then d
    else
      var prefix := NatToString(n / 10);
      assert (prefix + d)[..|prefix + d| - 1] == prefix;
      prefix + d
  }

  /** `t` is an integer literal written as `sign` followed by `digits`: no sign, `-` or `+`,
      then one or more ASCII digits. */
  ghost predicate SignedNumeral(t: string, sign: string, digits: string) {
    t == sign + digits && (sign == "" || sign == "-" || sign == "+") && |digits| > 0 && AllDigits(digits)
  }

  ghost predicate IsNumeral(t: string) {
    exists sign, digits :: SignedNumeral(t, sign, digits)
  }

  /** The value an integer literal denotes. */
  function SignedValue(sign: string, digits: string): int
    requires AllDigits(digits)
  {
    if sign == "-" then -(DigitsValue(digits) as int) else DigitsValue(digits)
  }

  /** A literal splits into sign and digits in one way only, and a signed one is not all digits. */
  lemma NumeralParts(t: string)
    ensures forall sign, digits :: SignedNumeral(t, sign, digits) && sign == "" ==> t == digits
    ensures forall sign, digits :: SignedNumeral(t, sign, digits) && sign != "" ==>
              |t| > 1 && t[0] == sign[0] && t[1..] == digits && !AllDigits(t)
  {
    forall sign, digits | SignedNumeral(t, sign, digits) && sign != ""
      ensures |t| > 1 && t[0] == sign[0] && t[1..] == digits && !AllDigits(t)
    {
      assert t[0] == sign[0];
      assert !IsDigit(t[0]);
      assert t[1..] == digits;
    }
  }

  /** `int(s)` for the numerals the scripts read from git: optional surrounding whitespace,
      an optional sign and one or more ASCII digits. `None` is the `ValueError` case. */
  function ParseInt(s: string): (r: Option<int>)
    ensures var t := Strip(s); |t| > 0 && AllDigits(t) ==> r == Some(DigitsValue(t))
    ensures var t := Strip(s); r.Some? ==> |t| > 0 && (AllDigits(t) || ((t[0] == '-' || t[0] == '+') && AllDigits(t[1..])))
    ensures r.Some? <==> IsNumeral(Strip(s))
    ensures forall sign, digits :: SignedNumeral(Strip(s), sign, digits) ==> r == Some(SignedValue(sign, digits))
  {
    ReadsNumerals(Strip(s));
    ParseStripped(Strip(s))
  }

  /** `int()` on text without surrounding whitespace. */
  function ParseStripped(t: string): Option<int> {
    if |t| == 0 then None
    else if AllDigits(t) then Some(DigitsValue(t))
    else if |t| > 1 && (t[0] == '-' || t[0] == '+') && AllDigits(t[1..]) then
      var v: int := DigitsValue(t[1..]);
      Some(if t[0] == '-' then -v else v)
    else None
  }

  lemma ReadsNumerals(t: string)
    ensures ParseStripped(t).Some? <==> IsNumeral(t)
    ensures forall sign, digits :: SignedNumeral(t, sign, digits) ==> ParseStripped(t) == Some(SignedValue(sign, digits))
  {
    NumeralParts(t);
    if |t| > 0 && AllDigits(t) {
      assert SignedNumeral(t, "", t);
    } else if |t| > 1 && (t[0] == '-' || t[0] == '+') && AllDigits(t[1..]) {
      assert t == [t[0]] + t[1..];
      assert SignedNumeral(t, [t[0]], t[1..]);
    }
  }

  /** Printing a count and reading it back gives the count. */
  lemma ParseIntNatToString(n: nat)
    ensures ParseInt(NatToString(n)) == Some(n)
  {
    var s := NatToString(n);
    assert !IsSpace(s[0]) && !IsSpace(s[|s| - 1]);
    assert Strip(s) == s;
  }

  /** Python's `str.lower()` restricted to ASCII letters. */
  function AsciiLower(c: char): (l: char)
    ensures 'A' <= c <= 'Z' ==> 'a' <= l <= 'z' && l as int - c as int == 32
    ensures !('A' <= c <= 'Z') ==> l == c
  {
    if 'A' <= c <= 'Z' then (c as int + 32) as char else c
  }

  function AsciiLowerString(s: string): (r: string)
    ensures |r| == |s| && forall i :: 0 <= i < |s| ==> r[i] == AsciiLower(s[i])
  {
    seq(|s|, i requires 0 <= i < |s| => AsciiLower(s[i]))
  }

  /** The case-insensitive equivalence of `re.IGNORECASE` (Unicode mode) for the characters of
      the scripts' patterns: an ASCII letter matches both of its cases, and `İ`/`ı` also match
      `i`, `ſ` matches `s` and the Kelvin sign matches `k`. */
  function Fold(c: char): (f: char)
    ensures 'A' <= c <= 'Z' ==> f == AsciiLower(c)
    ensures ('a' <= c <= 'z' || c == '[' || c == ']' || c == ' ' || c == '-') ==> f == c
  {
    if 'A' <= c <= 'Z' then AsciiLower(c)
    else if c == '\U{130}' || c == '\U{131}' then 'i'
    else if c == '\U{17F}' then 's'
    else if c == '\U{212A}' then 'k'
    else c
  }

  /** `a` and `b` are equal up to `re.IGNORECASE`. */
  predicate EqualIgnoringCase(a: string, b: string) {
    |a| == |b| && forall i :: 0 <= i < |a| ==> Fold(a[i]) == Fold(b[i])
  }
}
