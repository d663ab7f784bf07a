/** The command-risk classifier of `git_safety_check.py`: two ordered tiers of rules, the
    dangerous tier taking precedence over the caution tier. */
module GitRisk {
  import opened Text
  import opened Seqs
  import opened RiskPatterns

  datatype RiskLevel = Safe | Caution | Dangerous | Blocked

  /** A rule: the pattern searched for, the warning it raises and what it recommends instead. */
  datatype Rule = Rule(pattern: Pattern, warning: string, recommendations: seq<string>)

  datatype RiskAssessment = RiskAssessment(
    level: RiskLevel,
    command: string,
    warnings: seq<string>,
    recommendations: seq<string>,
    requiresConfirmation: bool)

  /** The two ordered rule tables: `DANGEROUS_PATTERNS` and `CAUTION_PATTERNS`. */
  datatype Tiers = Tiers(dangerous: seq<Rule>, caution: seq<Rule>)

  /** `push\s+--force\s+origin\s+(main|master)` */
  const ForcePushPattern: Pattern :=
    [Word("push"), Spaces, Word("--force"), Spaces, Word("origin"), Spaces, OneOf(["main", "master"])]

  /** `branch\s+-D` */
  const BranchForceDelete: Pattern := [Word("branch"), Spaces, Word("-D")]

  const ForcePushWarning := "Force push to main/master rewrites shared history"
  const ForceDeleteWarning := "Force deletes branch even if not merged"

  const DangerousRules: seq<Rule> := [
    Rule(ForcePushPattern,
         ForcePushWarning,
         ["Use --force-with-lease instead", "Coordinate with team first"]),
    Rule([Word("push"), Spaces, Word("-f"), Spaces, Word("origin"), Spaces, OneOf(["main", "master"])],
         ForcePushWarning,
         ["Use --force-with-lease instead", "Coordinate with team first"]),
    Rule([Word("reset"), Spaces, Word("--hard"), Spaces, Word("HEAD~")],
         "Hard reset discards commits permanently",
         ["Ensure commits are backed up", "Consider git revert instead"]),
    Rule([Word("reset"), Spaces, Word("--hard"), Spaces, Word("origin/")],
         "Hard reset to remote discards local changes",
         ["Stash changes first: git stash", "Verify no important uncommitted work"]),
    Rule([Word("clean"), Spaces, Word("-fd")],
         "Removes untracked files and directories permanently",
         ["Review untracked files first: git status", "Consider git stash -u"]),
    Rule(BranchForceDelete,
         ForceDeleteWarning,
         ["Use -d for safe delete", "Verify branch is merged or backed up"])
  ]

  const CautionRules: seq<Rule> := [
    Rule([Word("rebase"), Spaces],
         "Rebase rewrites commit history",
         ["Ensure branch is not shared", "Consider merge for shared branches"]),
    Rule([Word("push"), Spaces, Word("--force-with-lease")],
         "Force push with lease is safer but still rewrites history",
         ["Verify no one else has pushed", "Communicate with team"]),
    Rule([Word("cherry-pick"), Spaces],
         "Cherry-pick may cause duplicate commits",
         ["Document the cherry-pick", "Consider if merge is better"]),
    Rule([Word("stash"), Spaces, Word("drop")],
         "Permanently removes stashed changes",
         ["Verify stash content first: git stash show -p"])
  ]

  /** The tables of the script. */
  const SourceTiers := Tiers(DangerousRules, CautionRules)

  /** Every rule pattern is in the fragment where the greedy matcher is exact. */
  lemma RulePatternsWellFormed()
    ensures forall r :: r in DangerousRules ==> WellFormed(r.pattern)
    ensures forall r :: r in CautionRules ==> WellFormed(r.pattern)
  {
    DangerousPatternsWellFormed();
    CautionPatternsWellFormed();
  }

  lemma DangerousPatternsWellFormed()
    ensures forall r :: r in DangerousRules ==> WellFormed(r.pattern)
  {
    var rs := DangerousRules;
    assert SolidAfterSpacesFrom(rs[0].pattern, 0);
    assert SolidAfterSpacesFrom(rs[1].pattern, 0);
    assert SolidAfterSpacesFrom(rs[2].pattern, 0);
    assert SolidAfterSpacesFrom(rs[3].pattern, 0);
    assert SolidAfterSpacesFrom(rs[4].pattern, 0);
    assert SolidAfterSpacesFrom(rs[5].pattern, 0);
    forall i | 0 <= i < |rs|
      ensures WellFormed(rs[i].pattern)
    {
      SolidAfterSpacesWellFormed(rs[i].pattern, 0);
    }
  }

  lemma CautionPatternsWellFormed()
    ensures forall r :: r in CautionRules ==> WellFormed(r.pattern)
  {
  }

  /** `search(pattern, command)`: does the pattern match somewhere in the command? */
  type Matcher = (Pattern, string) -> bool

  /** The search the script performs: `re.search(pattern, command, re.IGNORECASE)`. */
  predicate SourceSearch(p: Pattern, command: string) {
    Search(p, command, true)
  }

  /** The rules of `rules` whose pattern is found in `command`, in rule order. */
  function Hits(rules: seq<Rule>, search: Matcher, command: string): (h: seq<Rule>)
    ensures forall r :: r in h <==> r in rules && search(r.pattern, command)
  {
    Filter(rules, (r: Rule) => search(r.pattern, command))
  }

  /** One warning per rule, in rule order. */
  function WarningsOf(h: seq<Rule>): (w: seq<string>)
    ensures |w| == |h| && forall k :: 0 <= k < |h| ==> w[k] == h[k].warning
  {
    seq(|h|, k requires 0 <= k < |h| => h[k].warning)
  }

  /** The recommendation lists of the rules, concatenated in rule order without deduplication. */
  function RecommendationsOf(h: seq<Rule>): (recs: seq<string>)
    ensures forall k :: 0 <= k < |h| ==> |h[k].recommendations| <= |recs|
    decreases |h|
  {
    if |h| == 0 then [] else RecommendationsOf(h[..|h| - 1]) + h[|h| - 1].recommendations
  }

  /** The assessment of `command` (reference definition): the dangerous tier decides when any of
      its rules matches; otherwise the caution tier decides; otherwise the command is safe. */
  function Classify(tiers: Tiers, command: string, search: Matcher): (a: RiskAssessment)
    ensures a.command == command
    ensures a.level != Blocked
    ensures a.requiresConfirmation <==> a.level == Dangerous
    ensures a.level == Dangerous <==> exists r :: r in tiers.dangerous && search(r.pattern, command)
    ensures a.level == Caution <==>
              (forall r :: r in tiers.dangerous ==> !search(r.pattern, command))
              && (exists r :: r in tiers.caution && search(r.pattern, command))
    ensures a.level == Safe ==> a.warnings == [] && a.recommendations == []
  {
    var danger := Hits(tiers.dangerous, search, command);
    if |danger| > 0 then
      assert danger[0] in danger;
      RiskAssessment(Dangerous, command, WarningsOf(danger), RecommendationsOf(danger), true)
    else
      var caution := Hits(tiers.caution, search, command);
      if |caution| > 0 then
        assert caution[0] in caution;
        RiskAssessment(Caution, command, WarningsOf(caution), RecommendationsOf(caution), false)
      else
        RiskAssessment(Safe, command, [], [], false)
  }

  /** One loop of `analyze_command`: the warnings and recommendations of the matching rules of
      one tier, accumulated in rule order. */
  method ScanTier(rules: seq<Rule>, command: string, search: Matcher)
    returns (warnings: seq<string>, recommendations: seq<string>)
    ensures warnings == WarningsOf(Hits(rules, search, command))
    ensures recommendations == RecommendationsOf(Hits(rules, search, command))
    ensures |warnings| > 0 <==> exists r :: r in rules && search(r.pattern, command)
  {
    warnings := [];
    recommendations := [];
    ghost var keep := (r: Rule) => search(r.pattern, command);
    ghost var h: seq<Rule> := [];
    var i := 0;
    while i < |rules|
      invariant 0 <= i <= |rules|
      invariant h == Filter(rules[..i], keep)
      invariant warnings == WarningsOf(h)
      invariant recommendations == RecommendationsOf(h)
    {
      var rule := rules[i];
      assert rules[..i + 1][..i] == rules[..i];
      if search(rule.pattern, command) {
        WarningsOfSnoc(h, rule);
        assert (h + [rule])[..|h|] == h;
        h := h + [rule];
        warnings := warnings + [rule.warning];
        recommendations := recommendations + rule.recommendations;
      }
      i := i + 1;
    }
    assert rules[..i] == rules;
    if exists r :: r in rules && search(r.pattern, command) {
      var r :| r in rules && search(r.pattern, command);
      assert r in h;
    }
  }

  lemma WarningsOfSnoc(h: seq<Rule>, rule: Rule)
    ensures WarningsOf(h + [rule]) == WarningsOf(h) + [rule.warning]
  {
  }

  /** `analyze_command`: the dangerous tier is scanned first; the caution tier only when no
      dangerous rule matched. */
  method AnalyzeCommand(tiers: Tiers, command: string, search: Matcher) returns (a: RiskAssessment)
    ensures a == Classify(tiers, command, search)
  {
    var warnings, recommendations := ScanTier(tiers.dangerous, command, search);
    if |warnings| > 0 {
      return RiskAssessment(Dangerous, command, warnings, recommendations, true);
    }
    warnings, recommendations := ScanTier(tiers.caution, command, search);
    if |warnings| > 0 {
      return RiskAssessment(Caution, command, warnings, recommendations, false);
    }
    return RiskAssessment(Safe, command, warnings, recommendations, false);
  }

  /** Once a dangerous rule matches, what the caution rules would say is irrelevant: two searches
      that agree on the dangerous patterns give the same assessment. */
  lemma DangerousTierDominates(tiers: Tiers, command: string, s1: Matcher, s2: Matcher)
    requires forall r :: r in tiers.dangerous ==> s1(r.pattern, command) == s2(r.pattern, command)
    requires exists r :: r in tiers.dangerous && s1(r.pattern, command)
    ensures Classify(tiers, command, s1) == Classify(tiers, command, s2)
    ensures Classify(tiers, command, s1).level == Dangerous
    ensures Classify(tiers, command, s1).requiresConfirmation
  {
    FilterCongruent(tiers.dangerous, (r: Rule) => s1(r.pattern, command), (r: Rule) => s2(r.pattern, command));
  }

  /** When no dangerous rule matches, the assessment depends on the caution tier alone. */
  lemma CautionTierDecidesOtherwise(tiers: Tiers, command: string, s1: Matcher, s2: Matcher)
    requires forall r :: r in tiers.dangerous ==> !s1(r.pattern, command) && !s2(r.pattern, command)
    requires forall r :: r in tiers.caution ==> s1(r.pattern, command) == s2(r.pattern, command)
    ensures Classify(tiers, command, s1) == Classify(tiers, command, s2)
    ensures !Classify(tiers, command, s1).requiresConfirmation
  {
    FilterCongruent(tiers.dangerous, (r: Rule) => s1(r.pattern, command), (r: Rule) => s2(r.pattern, command));
    FilterCongruent(tiers.caution, (r: Rule) => s1(r.pattern, command), (r: Rule) => s2(r.pattern, command));
  }

  /** Recommendations of consecutive groups of rules are concatenated, never merged. */
  lemma {:induction false} RecommendationsOfAppend(a: seq<Rule>, b: seq<Rule>)
    ensures RecommendationsOf(a + b) == RecommendationsOf(a) + RecommendationsOf(b)
    decreases |b|
  {
    if |b| == 0 {
      assert a + b == a;
    } else {
      assert (a + b)[..|a + b| - 1] == a + b[..|b| - 1];
      RecommendationsOfAppend(a, b[..|b| - 1]);
    }
  }

  /** The warnings are one per matching rule of the deciding tier, in declaration order: the
      matches of an earlier block of rules come before those of a later block, and the
      recommendations follow the same order. */
  lemma HitsInRuleOrder(a: seq<Rule>, b: seq<Rule>, search: Matcher, command: string)
    ensures Hits(a + b, search, command) == Hits(a, search, command) + Hits(b, search, command)
    ensures RecommendationsOf(Hits(a + b, search, command))
            == RecommendationsOf(Hits(a, search, command)) + RecommendationsOf(Hits(b, search, command))
  {
    FilterAppend(a, b, (r: Rule) => search(r.pattern, command));
    RecommendationsOfAppend(Hits(a, search, command), Hits(b, search, command));
  }

  /** The recommendations of a leading rule come first. */
  lemma RecommendationsOfCons(rule: Rule, rest: seq<Rule>)
    ensures RecommendationsOf([rule] + rest) == rule.recommendations + RecommendationsOf(rest)
  {
    RecommendationsOfAppend([rule], rest);
    assert [rule][..0] == [];
  }

  /** When the first rule of a tier matches, it heads the hits and its recommendations head the
      recommendation list. */
  lemma FirstHit(rules: seq<Rule>, search: Matcher, command: string)
    requires |rules| >= 1 && search(rules[0].pattern, command)
    ensures var h := Hits(rules, search, command);
            && |h| >= 1 && h[0] == rules[0]
            && h == [rules[0]] + Hits(rules[1..], search, command)
            && RecommendationsOf(h)
               == rules[0].recommendations + RecommendationsOf(Hits(rules[1..], search, command))
  {
    FilterCons(rules, (r: Rule) => search(r.pattern, command));
    RecommendationsOfCons(rules[0], Hits(rules[1..], search, command));
  }

  /** When the first two rules of a tier both match, they head the hits in order, and their
      recommendations head the recommendation list, concatenated as they are. */
  lemma FirstTwoHits(rules: seq<Rule>, search: Matcher, command: string)
    requires |rules| >= 2 && search(rules[0].pattern, command) && search(rules[1].pattern, command)
    ensures var h := Hits(rules, search, command);
            && |h| >= 2 && h[0] == rules[0] && h[1] == rules[1]
            && RecommendationsOf(h)
               == rules[0].recommendations + rules[1].recommendations + RecommendationsOf(Hits(rules[2..], search, command))
  {
    FirstHit(rules, search, command);
    FirstHit(rules[1..], search, command);
    assert rules[1..][1..] == rules[2..];
    var r0, r1 := rules[0].recommendations, rules[1].recommendations;
    var rt := RecommendationsOf(Hits(rules[2..], search, command));
    AppendAssoc(r0, r1, rt);
  }

  /** Every recommendation of every listed rule is in the concatenated recommendations. */
  lemma {:induction false} RecommendationsOfContains(h: seq<Rule>, j: nat)
    requires j < |h|
    ensures forall x :: x in h[j].recommendations ==> x in RecommendationsOf(h)
    decreases |h|
  {
    if j < |h| - 1 {
      RecommendationsOfContains(h[..|h| - 1], j);
    }
  }

  /** A rule that matches has its warning and every one of its recommendations reported. */
  lemma HitReported(rules: seq<Rule>, k: nat, search: Matcher, command: string)
    requires k < |rules| && search(rules[k].pattern, command)
    ensures rules[k].warning in WarningsOf(Hits(rules, search, command))
    ensures forall x :: x in rules[k].recommendations ==> x in RecommendationsOf(Hits(rules, search, command))
  {
    var h := Hits(rules, search, command);
    assert rules[k] in h;
    var j :| 0 <= j < |h| && h[j] == rules[k];
    assert WarningsOf(h)[j] == rules[k].warning;
    RecommendationsOfContains(h, j);
  }

  /** A warning that no matching rule carries is never reported. */
  lemma WarningAbsent(tiers: Tiers, command: string, search: Matcher, w: string)
    requires forall r :: r in tiers.dangerous && r.warning == w ==> !search(r.pattern, command)
    requires forall r :: r in tiers.caution && r.warning == w ==> !search(r.pattern, command)
    ensures w !in Classify(tiers, command, search).warnings
  {
    var a := Classify(tiers, command, search);
    if a.level != Safe {
      var tier := if a.level == Dangerous then tiers.dangerous else tiers.caution;
      var h := Hits(tier, search, command);
      assert a.warnings == WarningsOf(h);
      forall k | 0 <= k < |h|
        ensures h[k].warning != w
      {
        assert h[k] in tier;
      }
    }
  }

  /** The two force-push rules share their warning and recommendations. */
  lemma ForcePushRules()
    ensures |DangerousRules| == 6 && DangerousRules[0].pattern == ForcePushPattern
    ensures DangerousRules[0].warning == DangerousRules[1].warning == ForcePushWarning
    ensures DangerousRules[0].recommendations == DangerousRules[1].recommendations
    ensures |DangerousRules[0].recommendations| == 2
    ensures DangerousRules[0].recommendations[0] == "Use --force-with-lease instead"
  {
  }

  /** When both force-push rules match, their identical warnings and recommendations are both
      reported: nothing is deduplicated. */
  lemma DuplicatesAreKept(command: string, search: Matcher)
    requires search(DangerousRules[0].pattern, command) && search(DangerousRules[1].pattern, command)
    ensures var a := Classify(SourceTiers, command, search);
            && |a.warnings| >= 2 && a.warnings[0] == a.warnings[1] == ForcePushWarning
            && |a.recommendations| >= 4
            && a.recommendations[0] == a.recommendations[2] == "Use --force-with-lease instead"
  {
    ForcePushRules();
    TwinHitsKept(SourceTiers, command, search);
  }

  /** Two leading dangerous rules with the same advice that both match report that advice twice. */
  lemma TwinHitsKept(tiers: Tiers, command: string, search: Matcher)
    requires |tiers.dangerous| >= 2
    requires search(tiers.dangerous[0].pattern, command) && search(tiers.dangerous[1].pattern, command)
    requires tiers.dangerous[0].warning == tiers.dangerous[1].warning
    requires tiers.dangerous[0].recommendations == tiers.dangerous[1].recommendations
    requires |tiers.dangerous[0].recommendations| == 2
    ensures var a := Classify(tiers, command, search);
            && |a.warnings| >= 2 && a.warnings[0] == a.warnings[1] == tiers.dangerous[0].warning
            && |a.recommendations| >= 4
            && a.recommendations[0] == a.recommendations[2] == tiers.dangerous[0].recommendations[0]
  {
    var rules := tiers.dangerous;
    FirstTwoHits(rules, search, command);
    var h := Hits(rules, search, command);
    var r0 := rules[0].recommendations;
    var recs := RecommendationsOf(h);
    assert Classify(tiers, command, search)
           == RiskAssessment(Dangerous, command, WarningsOf(h), recs, true);
    assert recs == r0 + r0 + RecommendationsOf(Hits(rules[2..], search, command));
    assert recs[0] == r0[0] && recs[2] == r0[0];
  }

  /** A word found in a piece of text is found at the shifted position of any command that
      contains that text. */
  lemma WordAtInContext(pre: string, t: string, post: string, w: string, off: nat)
    requires OccursAt(t, w, off)
    ensures WordAt(w, pre + t + post, |pre| + off, true)
  {
    var s := pre + t + post;
    assert s[|pre| + off..|pre| + off + |w|] == t[off..off + |w|];
    OccursWordAt(w, s, |pre| + off, true);
  }

  const ForcePushToMain := "push --force origin main"

  /** The words of "push --force origin main", at their offsets. */
  lemma ForcePushWords()
    ensures OccursAt(ForcePushToMain, "push", 0) && OccursAt(ForcePushToMain, "--force", 5)
    ensures OccursAt(ForcePushToMain, "origin", 13) && OccursAt(ForcePushToMain, "main", 20)
  {
    var t := ForcePushToMain;
    assert t == "push" + " " + "--force" + " " + "origin" + " " + "main";
    assert t[0..4] == "push";
    assert t[5..12] == "--force";
    assert t[13..19] == "origin";
    assert t[20..24] == "main";
  }

  /** The shape of the force-push pattern, token by token. */
  predicate ForcePushShape(p: Pattern) {
    && |p| == 7 && p[0] == Word("push") && p[1] == Spaces && p[2] == Word("--force")
    && p[3] == Spaces && p[4] == Word("origin") && p[5] == Spaces
    && p[6].OneOf? && |p[6].alternatives| > 0 && p[6].alternatives[0] == "main"
  }

  /** From `--force` on, a force-push pattern matches "push --force origin main" in context. */
  lemma ForcePushTailMatches(p: Pattern, pre: string, post: string)
    requires ForcePushShape(p)
    ensures var s := pre + ForcePushToMain + post;
            |pre| + 5 <= |s| && MatchAt(p, 2, s, |pre| + 5, true)
  {
    var t := ForcePushToMain;
    var s := pre + t + post;
    var n := |pre|;
    ForcePushWords();
    WordAtInContext(pre, t, post, "--force", 5);
    WordAtInContext(pre, t, post, "origin", 13);
    WordAtInContext(pre, t, post, "main", 20);
    assert s[n + 12] == ' ' && s[n + 13] == 'o' && s[n + 19] == ' ' && s[n + 20] == 'm';
    MatchOneOfStep(p, 6, 0, s, n + 20, true);
    MatchSpaceStep(p, 5, s, n + 19, true);
    MatchWordStep(p, 4, s, n + 13, true);
    MatchSpaceStep(p, 3, s, n + 12, true);
    MatchWordStep(p, 2, s, n + 5, true);
  }

  /** Every command containing "push --force origin main" matches a force-push pattern. */
  lemma ForcePushShapeMatches(p: Pattern, pre: string, post: string)
    requires ForcePushShape(p)
    ensures SourceSearch(p, pre + ForcePushToMain + post)
  {
    var t := ForcePushToMain;
    var s := pre + t + post;
    var n := |pre|;
    ForcePushWords();
    ForcePushTailMatches(p, pre, post);
    WordAtInContext(pre, t, post, "push", 0);
    assert s[n + 4] == ' ' && s[n + 5] == '-';
    MatchSpaceStep(p, 1, s, n + 4, true);
    MatchWordStep(p, 0, s, n, true);
    SearchAt(p, s, n, true);
  }

  /** Every command containing "push --force origin main" matches the first force-push pattern. */
  lemma ForcePushMatches(pre: string, post: string)
    ensures SourceSearch(ForcePushPattern, pre + ForcePushToMain + post)
  {
    ForcePushShapeMatches(ForcePushPattern, pre, post);
  }

  /** A command containing "push --force origin main" is dangerous, and its first warning is
      about rewriting shared history. */
  lemma ForcePushToMainIsDangerous(pre: string, post: string)
    ensures var a := Classify(SourceTiers, pre + ForcePushToMain + post, SourceSearch);
            a.level == Dangerous && a.requiresConfirmation && a.warnings[0] == ForcePushWarning
  {
    ForcePushMatches(pre, post);
    ForcePushRules();
    FirstHit(SourceTiers.dangerous, SourceSearch, pre + ForcePushToMain + post);
  }

  const SafeDelete := "branch -d"

  /** Every command containing "branch -d" matches `branch\s+-D` once case is ignored. */
  lemma SafeDeleteMatchesIgnoringCase(pre: string, post: string)
    ensures SourceSearch(BranchForceDelete, pre + SafeDelete + post)
  {
    var t := SafeDelete;
    var s := pre + t + post;
    var p := BranchForceDelete;
    var n := |pre|;
    assert t[0..6] == "branch";
    WordAtInContext(pre, t, post, "branch", 0);
    assert s[n + 6] == ' ' && s[n + 7] == '-' && s[n + 8] == 'd';
    assert WordAt("-D", s, n + 7, true) by {
      assert Fold('d') == Fold('D');
    }
    MatchWordStep(p, 2, s, n + 7, true);
    MatchSpaceStep(p, 1, s, n + 6, true);
    MatchWordStep(p, 0, s, n, true);
    SearchAt(p, s, n, true);
  }

  /** As written: `branch\s+-D` is searched with `re.IGNORECASE`, so every command with the
      safe `branch -d` is classified dangerous and told to "Use -d for safe delete". */
  lemma SafeDeleteFlaggedAsWritten(pre: string, post: string)
    ensures var a := Classify(SourceTiers, pre + SafeDelete + post, SourceSearch);
            && a.level == Dangerous && a.requiresConfirmation
            && ForceDeleteWarning in a.warnings
            && "Use -d for safe delete" in a.recommendations
  {
    SafeDeleteMatchesIgnoringCase(pre, post);
    var rules := SourceTiers.dangerous;
    assert rules[5] == Rule(BranchForceDelete, ForceDeleteWarning,
                            ["Use -d for safe delete", "Verify branch is merged or backed up"]);
    HitReported(rules, 5, SourceSearch, pre + SafeDelete + post);
  }

  /** Corrected: the force-delete flag is matched case-sensitively; every other rule keeps
      `re.IGNORECASE`. */
  predicate IntendedSearch(p: Pattern, command: string) {
    Search(p, command, p != BranchForceDelete)
  }

  /** Under the corrected search the force-delete rule fires only on a literal `-D`. */
  lemma IntendedForceDeleteNeedsCapitalD(command: string)
    requires IntendedSearch(BranchForceDelete, command)
    ensures Occurs(command, "-D")
  {
    var p := BranchForceDelete;
    var i :| 0 <= i <= |command| && MatchAt(p, 0, command, i, false);
    assert MatchAt(p, 1, command, i + 6, false);
    var g := SkipSpaces(command, i + 7);
    assert MatchAt(p, 2, command, g, false);
    WordAtExact("-D", command, g);
  }

  /** Only the force-delete rule carries the force-delete warning. */
  lemma ForceDeleteWarningOnlyOnce()
    ensures forall r :: r in DangerousRules && r.warning == ForceDeleteWarning ==> r.pattern == BranchForceDelete
    ensures forall r :: r in CautionRules ==> r.warning != ForceDeleteWarning
  {
    forall k | 0 <= k < |DangerousRules| && DangerousRules[k].warning == ForceDeleteWarning
      ensures DangerousRules[k].pattern == BranchForceDelete
    {
    }
  }

  /** Under the corrected search a command without `-D` never gets the force-delete warning. */
  lemma IntendedSafeDeleteNotFlagged(command: string)
    requires !Occurs(command, "-D")
    ensures ForceDeleteWarning !in Classify(SourceTiers, command, IntendedSearch).warnings
  {
    if IntendedSearch(BranchForceDelete, command) {
      IntendedForceDeleteNeedsCapitalD(command);
    }
    ForceDeleteWarningOnlyOnce();
    WarningAbsent(SourceTiers, command, IntendedSearch, ForceDeleteWarning);
  }

  /** "git branch -d old" carries no `-D`. */
  lemma SafeDeleteHasNoCapitalD()
    ensures !Occurs("git branch -d old", "-D")
  {
    var s := "git branch -d old";
    assert 'D' !in s;
    forall i: nat | i <= |s|
      ensures !OccursAt(s, "-D", i)
    {
      if i + 2 <= |s| {
        assert s[i..i + 2][1] == s[i + 1];
        assert s[i + 1] in s;
      }
    }
  }

  /** The finding on one command: the script flags "git branch -d old" as a force delete; the
      corrected search does not. */
  lemma SafeDeleteOnlyFlaggedAsWritten()
    ensures ForceDeleteWarning in Classify(SourceTiers, "git branch -d old", SourceSearch).warnings
    ensures ForceDeleteWarning !in Classify(SourceTiers, "git branch -d old", IntendedSearch).warnings
  {
    assert "git " + SafeDelete + " old" == "git branch -d old";
    SafeDeleteFlaggedAsWritten("git ", " old");
    SafeDeleteHasNoCapitalD();
    IntendedSafeDeleteNotFlagged("git branch -d old");
  }
}
