/** The fragment of Python regular expressions the command-risk rules are written in
    (literal words, `\s+` and a `(a|b)` group at the end) and `re.search` over it. */
module RiskPatterns {
  import opened Text

  /** One piece of a rule pattern: a literal word, `\s+`, or a group of literal alternatives. */
  datatype Token = Word(text: string) | Spaces | OneOf(alternatives: seq<string>)

  type Pattern = seq<Token>

  /** Character equality, up to `re.IGNORECASE` when `ignoreCase` holds. */
  predicate SameChar(a: char, b: char, ignoreCase: bool) {
    if ignoreCase then Fold(a) == Fold(b) else a == b
  }

  /** The literal `w` occurs in `s` at position `i`. */
  predicate WordAt(w: string, s: string, i: nat, ignoreCase: bool) {
    i + |w| <= |s| && forall k :: 0 <= k < |w| ==> SameChar(s[i + k], w[k], ignoreCase)
  }

  /** The end of the run of whitespace that starts at `i`. */
  function SkipSpaces(s: string, i: nat): (j: nat)
    requires i <= |s|
    ensures i <= j <= |s|
    ensures forall m :: i <= m < j ==> IsSpace(s[m])
    ensures j == |s| || !IsSpace(s[j])
    decreases |s| - i
  {
    if i < |s| && IsSpace(s[i]) then SkipSpaces(s, i + 1) else i
  }

  /** Tokens `k..` of `p` match `s` from position `i` onwards, with every `\s+` taking the whole
      run of whitespace in front of it. */
  predicate MatchAt(p: Pattern, k: nat, s: string, i: nat, ignoreCase: bool)
    requires k <= |p| && i <= |s|
    decreases |p| - k
  {
    if k == |p| then true
    else match p[k]
      case Word(w) =>
        WordAt(w, s, i, ignoreCase) && MatchAt(p, k + 1, s, i + |w|, ignoreCase)
      case Spaces =>
        i < |s| && IsSpace(s[i]) && MatchAt(p, k + 1, s, SkipSpaces(s, i + 1), ignoreCase)
      case OneOf(alts) =>
        exists a :: 0 <= a < |alts| && WordAt(alts[a], s, i, ignoreCase)
                    && MatchAt(p, k + 1, s, i + |alts[a]|, ignoreCase)
  }

  /** `re.search(p, s)` (with `re.IGNORECASE` when `ignoreCase` holds): `p` matches somewhere. */
  predicate Search(p: Pattern, s: string, ignoreCase: bool) {
    exists i :: 0 <= i <= |s| && MatchAt(p, 0, s, i, ignoreCase)
  }

  /** `s[i..j]` is a non-empty run of whitespace. */
  predicate SpaceRun(s: string, i: nat, j: nat) {
    i < j <= |s| && forall m :: i <= m < j ==> IsSpace(s[m])
  }

  /** Reference semantics with backtracking: `\s+` may take any non-empty run of whitespace. */
  ghost predicate Matches(p: Pattern, k: nat, s: string, i: nat, ignoreCase: bool)
    requires k <= |p| && i <= |s|
    decreases |p| - k
  {
    if k == |p| then true
    else match p[k]
      case Word(w) =>
        WordAt(w, s, i, ignoreCase) && Matches(p, k + 1, s, i + |w|, ignoreCase)
      case Spaces =>
        exists j :: SpaceRun(s, i, j) && Matches(p, k + 1, s, j, ignoreCase)
      case OneOf(alts) =>
        exists a :: 0 <= a < |alts| && WordAt(alts[a], s, i, ignoreCase)
                    && Matches(p, k + 1, s, i + |alts[a]|, ignoreCase)
  }

  /** A token that cannot begin at a whitespace character. */
  predicate StartsSolid(t: Token) {
    match t
    case Word(w) => |w| > 0 && !IsSpace(w[0])
    case Spaces => false
    case OneOf(alts) => forall a :: 0 <= a < |alts| ==> |alts[a]| > 0 && !IsSpace(alts[a][0])
  }

  /** Every `\s+` ends the pattern or is followed by a token that cannot begin at whitespace:
      the shape of every rule pattern of the command classifier. */
  predicate WellFormed(p: Pattern) {
    forall k :: 0 <= k < |p| - 1 && p[k] == Spaces ==> StartsSolid(p[k + 1])
  }

  /** `WellFormed`, checked token by token from position `k` on. */
  predicate SolidAfterSpacesFrom(p: Pattern, k: nat)
    decreases |p| - k
  {
    k + 1 >= |p| || ((p[k] == Spaces ==> StartsSolid(p[k + 1])) && SolidAfterSpacesFrom(p, k + 1))
  }

  /** The token-by-token check establishes `WellFormed`. */
  lemma {:induction false} SolidAfterSpacesWellFormed(p: Pattern, k: nat)
    requires SolidAfterSpacesFrom(p, k)
    ensures forall j :: k <= j < |p| - 1 && p[j] == Spaces ==> StartsSolid(p[j + 1])
    decreases |p| - k
  {
    if k + 1 < |p| {
      SolidAfterSpacesWellFormed(p, k + 1);
    }
  }

  /** Folding never turns a non-space into whitespace or whitespace into anything else. */
  lemma FoldKeepsSpace(c: char)
    ensures IsSpace(Fold(c)) <==> IsSpace(c)
  {
  }

  /** A solid token cannot match at a whitespace character. */
  lemma SolidNotAtSpace(p: Pattern, k: nat, s: string, i: nat, ignoreCase: bool)
    requires k < |p| && i < |s| && StartsSolid(p[k]) && IsSpace(s[i])
    ensures !Matches(p, k, s, i, ignoreCase)
  {
    FoldKeepsSpace(s[i]);
    match p[k]
    case Word(w) =>
      FoldKeepsSpace(w[0]);
      assert !SameChar(s[i + 0], w[0], ignoreCase);
    case OneOf(alts) =>
      forall a | 0 <= a < |alts|
        ensures !WordAt(alts[a], s, i, ignoreCase)
      {
        FoldKeepsSpace(alts[a][0]);
        assert !SameChar(s[i + 0], alts[a][0], ignoreCase);
      }
  }

  /** For well-formed patterns the greedy matcher agrees with the backtracking semantics, so
      `Search` is `re.search` for every rule pattern. */
  lemma {:induction false} MatchAtIsMatches(p: Pattern, k: nat, s: string, i: nat, ignoreCase: bool)
    requires WellFormed(p) && k <= |p| && i <= |s|
    ensures MatchAt(p, k, s, i, ignoreCase) <==> Matches(p, k, s, i, ignoreCase)
    decreases |p| - k
  {
    if k < |p| {
      match p[k]
      case Word(w) =>
        if WordAt(w, s, i, ignoreCase) {
          MatchAtIsMatches(p, k + 1, s, i + |w|, ignoreCase);
        }
      case Spaces =>
        if i < |s| && IsSpace(s[i]) {
          var g := SkipSpaces(s, i + 1);
          MatchAtIsMatches(p, k + 1, s, g, ignoreCase);
          assert SpaceRun(s, i, g);
          if Matches(p, k, s, i, ignoreCase) {
            var j: nat :| SpaceRun(s, i, j) && Matches(p, k + 1, s, j, ignoreCase);
            assert j <= g;
            if j < g && k + 1 < |p| {
              assert IsSpace(s[j]);
              assert StartsSolid(p[k + 1]);
              SolidNotAtSpace(p, k + 1, s, j, ignoreCase);
            }
            assert j == g || k + 1 == |p|;
          }
        }
      case OneOf(alts) =>
        forall a | 0 <= a < |alts| && WordAt(alts[a], s, i, ignoreCase)
          ensures MatchAt(p, k + 1, s, i + |alts[a]|, ignoreCase)
                  <==> Matches(p, k + 1, s, i + |alts[a]|, ignoreCase)
        {
          MatchAtIsMatches(p, k + 1, s, i + |alts[a]|, ignoreCase);
        }
    }
  }

  /** Without `re.IGNORECASE` a matched word is literally present in the searched text. */
  lemma WordAtExact(w: string, s: string, i: nat)
    requires WordAt(w, s, i, false)
    ensures OccursAt(s, w, i)
  {
    assert s[i..i + |w|] == w;
  }

  /** A literal occurrence of a word is a match of it, with or without `re.IGNORECASE`. */
  lemma OccursWordAt(w: string, s: string, i: nat, ignoreCase: bool)
    requires OccursAt(s, w, i)
    ensures WordAt(w, s, i, ignoreCase)
  {
    forall k | 0 <= k < |w|
      ensures s[i + k] == w[k]
    {
      assert s[i..i + |w|][k] == s[i + k];
    }
  }

  /** One step of the matcher over a literal word. */
  lemma MatchWordStep(p: Pattern, k: nat, s: string, i: nat, ignoreCase: bool)
    requires k < |p| && p[k].Word? && i <= |s| && WordAt(p[k].text, s, i, ignoreCase)
    requires MatchAt(p, k + 1, s, i + |p[k].text|, ignoreCase)
    ensures MatchAt(p, k, s, i, ignoreCase)
  {
  }

  /** One step of the matcher over `\s+` followed by no further whitespace. */
  lemma MatchSpaceStep(p: Pattern, k: nat, s: string, i: nat, ignoreCase: bool)
    requires k < |p| && p[k].Spaces? && i + 1 < |s| && IsSpace(s[i]) && !IsSpace(s[i + 1])
    requires MatchAt(p, k + 1, s, i + 1, ignoreCase)
    ensures MatchAt(p, k, s, i, ignoreCase)
  {
  }

  /** One step of the matcher over a group, taking alternative `a`. */
  lemma MatchOneOfStep(p: Pattern, k: nat, a: nat, s: string, i: nat, ignoreCase: bool)
    requires k < |p| && p[k].OneOf? && a < |p[k].alternatives| && i <= |s|
    requires WordAt(p[k].alternatives[a], s, i, ignoreCase)
    requires MatchAt(p, k + 1, s, i + |p[k].alternatives[a]|, ignoreCase)
    ensures MatchAt(p, k, s, i, ignoreCase)
  {
  }

  /** A match at one position is a successful search. */
  lemma SearchAt(p: Pattern, s: string, i: nat, ignoreCase: bool)
    requires i <= |s| && MatchAt(p, 0, s, i, ignoreCase)
    ensures Search(p, s, ignoreCase)
  {
  }
}
