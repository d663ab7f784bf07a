/** The branch queries of `git_safety_check.py`: which branch is the main one, which branches
    are feature branches, and what git says about each feature branch. */
module GitBranches {
  import opened Wrappers
  import opened Seqs
  import opened Text

  // ----- the main branch -----

  predicate IsMainName(b: string) {
    b == "main" || b == "master"
  }

  /** One line of `git branch -l main master`, as `_get_main_branch` reads it. */
  function MainCandidate(line: string): string {
    ReplaceAll(Strip(line), "* ", "")
  }

  /** The first candidate that is main or master decides; "main" when none is. */
  function FirstMainName(names: seq<string>): (name: string)
    ensures IsMainName(name)
    decreases |names|
  {
    if |names| == 0 then "main"
    else if IsMainName(names[0]) then names[0]
    else FirstMainName(names[1..])
  }

  /** `_get_main_branch`: "master" only when the first main-like line of the listing names it;
      "main" otherwise, including when git fails. */
  function MainBranch(out: Option<string>): (name: string)
    ensures IsMainName(name)
    ensures out.None? ==> name == "main"
  {
    match out
    case None => "main"
    case Some(o) => FirstMainName(Map(SplitOn(Strip(o), '\n'), MainCandidate))
  }

  /** `FirstMainName` picks "master" exactly when a candidate is master and no earlier candidate
      is main or master. */
  lemma {:induction false} FirstMainNameIsFirstMatch(names: seq<string>)
    ensures FirstMainName(names) == "master" <==>
              exists k :: 0 <= k < |names| && names[k] == "master"
                          && forall j :: 0 <= j < k ==> !IsMainName(names[j])
    decreases |names|
  {
    if |names| > 0 && !IsMainName(names[0]) {
      var tail := names[1..];
      FirstMainNameIsFirstMatch(tail);
      if FirstMainName(names) == "master" {
        var k :| 0 <= k < |tail| && tail[k] == "master" && forall j :: 0 <= j < k ==> !IsMainName(tail[j]);
        assert names[k + 1] == "master";
        forall j | 0 <= j < k + 1
          ensures !IsMainName(names[j])
        {
          if j > 0 {
            assert names[j] == tail[j - 1];
          }
        }
      }
      if exists k :: 0 <= k < |names| && names[k] == "master" && forall j :: 0 <= j < k ==> !IsMainName(names[j]) {
        var k :| 0 <= k < |names| && names[k] == "master" && forall j :: 0 <= j < k ==> !IsMainName(names[j]);
        assert tail[k - 1] == "master";
        forall j | 0 <= j < k - 1
          ensures !IsMainName(tail[j])
        {
          assert tail[j] == names[j + 1];
        }
      }
    }
  }

  // ----- feature branches -----

  /** One line of `git branch -a` as `_get_feature_branches` reads it: stripped, every "* "
      removed, then every "remotes/origin/" removed. */
  function NormalizeBranchLine(line: string): string {
    ReplaceAll(ReplaceAll(Strip(line), "* ", ""), "remotes/origin/", "")
  }

  /** `branch.startswith(('feat/', 'fix/', 'refactor/', 'test/', 'docs/'))` */
  predicate IsFeatureName(b: string) {
    || StartsWith(b, "feat/") || StartsWith(b, "fix/") || StartsWith(b, "refactor/")
    || StartsWith(b, "test/") || StartsWith(b, "docs/")
  }

  /** The normalized name of every line. */
  function Normalized(lines: seq<string>): (names: seq<string>)
    ensures |names| == |lines|
    ensures forall k :: 0 <= k < |lines| ==> names[k] == NormalizeBranchLine(lines[k])
  {
    Map(lines, NormalizeBranchLine)
  }

  /** The feature branches of a listing: each feature name once, in order of first appearance. */
  function FeatureBranchesOf(lines: seq<string>): (r: seq<string>)
    ensures forall b :: b in r <==> IsFeatureName(b) && b in Normalized(lines)
  {
    Dedupe(Filter(Normalized(lines), IsFeatureName))
  }

  /** No feature branch is reported twice, and they come in the order of their first line. */
  lemma FeatureBranchesOnceInOrder(lines: seq<string>)
    ensures Distinct(FeatureBranchesOf(lines))
    ensures var r := FeatureBranchesOf(lines);
            var kept := Filter(Normalized(lines), IsFeatureName);
            forall i, j :: 0 <= i < j < |r| ==> FirstIndex(kept, r[i]) < FirstIndex(kept, r[j])
  {
    DedupeDistinct(Filter(Normalized(lines), IsFeatureName));
    DedupeFirstOccurrenceOrder(Filter(Normalized(lines), IsFeatureName));
  }

  /** `_get_feature_branches`, with no branch when git fails. */
  function FeatureBranches(out: Option<string>): (r: seq<string>)
    ensures forall b :: b in r ==> IsFeatureName(b)
    ensures out.None? ==> r == []
  {
    match out
    case None => []
    case Some(o) => FeatureBranchesOf(SplitOn(Strip(o), '\n'))
  }

  /** `_get_feature_branches`: the loop over the listing's lines, or no branch when git fails. */
  method GetFeatureBranches(out: Option<string>) returns (branches: seq<string>)
    ensures branches == FeatureBranches(out)
  {
    branches := [];
    if out.Some? {
      branches := CollectDistinct(SplitOn(Strip(out.value), '\n'), NormalizeBranchLine, IsFeatureName);
    }
  }

  /** A branch name git can print: trimmed, non-empty, and free of the two removed markers. */
  predicate PlainName(name: string) {
    name != [] && Trimmed(name) && !Occurs(name, "* ") && !Occurs(name, "remotes/origin/")
  }

  /** A marker followed by a plain name is still trimmed text. */
  lemma MarkedTrimmed(marker: string, name: string)
    requires PlainName(name) && marker != [] && !IsSpace(marker[0])
    ensures Strip(marker + name) == marker + name
  {
    var line := marker + name;
    assert line[0] == marker[0];
    assert line[|line| - 1] == name[|name| - 1];
    assert line == [] + line + [];
    StripPadded([], line, []);
  }

  /** The current-branch marker is removed: "* name" reads as `name`. */
  lemma CurrentLineNormalizes(name: string)
    requires PlainName(name)
    ensures MainCandidate("* " + name) == name
    ensures NormalizeBranchLine("* " + name) == name
  {
    MarkedTrimmed("* ", name);
    ReplaceAllLeading("* ", "", name);
    ReplaceAllAbsent(name, "* ", "");
    ReplaceAllAbsent(name, "remotes/origin/", "");
  }

  /** A remote-tracking line "  remotes/origin/name" reads as `name`. */
  lemma RemoteLineNormalizes(name: string)
    requires PlainName(name)
    ensures NormalizeBranchLine("  remotes/origin/" + name) == name
  {
    var remote := "remotes/origin/" + name;
    RemoteLineStripped(name);
    NoOccurrenceAcross("remotes/origin/", name, "* ");
    ReplaceAllAbsent(remote, "* ", "");
    assert ReplaceAll(Strip("  remotes/origin/" + name), "* ", "") == remote;
    ReplaceAllLeading("remotes/origin/", "", name);
    ReplaceAllAbsent(name, "remotes/origin/", "");
  }

  /** Stripping a remote-tracking line leaves "remotes/origin/name". */
  lemma RemoteLineStripped(name: string)
    requires PlainName(name)
    ensures Strip("  remotes/origin/" + name) == "remotes/origin/" + name
  {
    var remote := "remotes/origin/" + name;
    MarkedTrimmed("remotes/origin/", name);
    assert "  remotes/origin/" + name == "  " + remote + [];
    StripPadded("  ", remote, []);
  }

  /** Two lines naming the same feature branch give that branch once. */
  lemma SameFeatureTwice(lines: seq<string>, name: string)
    requires IsFeatureName(name) && Normalized(lines) == [name, name]
    ensures FeatureBranchesOf(lines) == [name]
  {
    FilterSnoc([], name, IsFeatureName);
    FilterSnoc([name], name, IsFeatureName);
    assert [name, name] == [name] + [name];
    assert Filter([name], IsFeatureName) == [name] by {
      assert [name] == [] + [name];
    }
    DedupeSnoc([], name);
    DedupeSnoc([name], name);
    assert Dedupe([name]) == [name] by {
      assert [name] == [] + [name];
    }
  }

  /** A feature branch checked out locally and tracked on origin is reported once. */
  lemma LocalAndRemoteReportedOnce(name: string)
    requires PlainName(name) && IsFeatureName(name)
    ensures FeatureBranchesOf(["* " + name, "  remotes/origin/" + name]) == [name]
  {
    var lines := ["* " + name, "  remotes/origin/" + name];
    CurrentLineNormalizes(name);
    RemoteLineNormalizes(name);
    MapPair("* " + name, "  remotes/origin/" + name, NormalizeBranchLine);
    SameFeatureTwice(lines, name);
  }


  // ----- one feature branch -----

  /** The standard output of each git query about one branch, or `None` when it fails. */
  datatype BranchQueries = BranchQueries(
    counts: Option<string>,      // git rev-list --left-right --count main...branch
    lastCommit: Option<string>,  // git log -1 --format=%cr branch
    diff: Option<string>,        // git diff --name-only main...branch
    mainTime: Option<string>,    // git log -1 --format=%ct main
    mergeBase: Option<string>,   // git merge-base main branch
    baseTime: Option<string>)    // git log -1 --format=%ct <merge base>

  datatype BranchInfo = BranchInfo(
    name: string,
    ahead: int,
    behind: int,
    lastCommit: string,
    filesChanged: nat,
    files: seq<string>,
    daysBehind: int,
    needsRebase: bool)

  const SecondsPerDay := 86400

  /** At most this many file names are kept per branch. */
  const FileListLimit := 10

  predicate NonEmpty(f: string) {
    f != []
  }

  /** The file names of `git diff --name-only`: the non-empty lines. */
  function ChangedFiles(diff: string): (files: seq<string>)
    ensures forall f :: f in files ==> f != [] && '\n' !in f
  {
    Filter(SplitOn(Strip(diff), '\n'), NonEmpty)
  }

  /** The two counts of `git rev-list --left-right --count`, `(behind, ahead)`; `None` when
      `int()` raises on one of them. A missing second field counts as zero. */
  function ReadCounts(c: string): (r: Option<(int, int)>)
    ensures r.Some? <==>
              var parts := SplitOn(Strip(c), '\t');
              ParseInt(parts[0]).Some? && (|parts| > 1 ==> ParseInt(parts[1]).Some?)
  {
    var parts := SplitOn(Strip(c), '\t');
    // `len(parts) > 0` always holds: `split` returns at least one piece.
    match ParseInt(parts[0])
    case None => None
    case Some(behind) =>
      match (if |parts| > 1 then ParseInt(parts[1]) else Some(0))
      case None => None
      case Some(ahead) => Some((behind, ahead))
  }

  /** `(main_time - base_time) // 86400`: whole days, rounded down. */
  function DaysBetween(mainTime: int, baseTime: int): (d: int)
    ensures d * SecondsPerDay <= mainTime - baseTime < (d + 1) * SecondsPerDay
  {
    (mainTime - baseTime) / SecondsPerDay
  }

  /** The days-behind step: nothing to query when the branch is not behind; otherwise the two
      commit times, whose `int()` may raise. `Success(None)` is a failed query. */
  function DaysBehind(behind: int, q: BranchQueries): (r: Result<Option<int>, Crash>)
    ensures behind <= 0 ==> r == Success(Some(0))
    ensures behind > 0 && r.Success? && r.value.Some? ==>
              && q.mainTime.Some? && q.mergeBase.Some? && q.baseTime.Some?
              && ParseInt(q.mainTime.value).Some? && ParseInt(q.baseTime.value).Some?
              && var span := ParseInt(q.mainTime.value).value - ParseInt(q.baseTime.value).value;
                 r.value.value * SecondsPerDay <= span < (r.value.value + 1) * SecondsPerDay
    ensures behind > 0 ==> (r.Failure? <==>
              (q.mainTime.Some? && (!IsNumeral(Strip(q.mainTime.value))
                 || (q.mergeBase.Some? && q.baseTime.Some? && !IsNumeral(Strip(q.baseTime.value))))))
    ensures behind > 0 ==> (r == Success(None) <==>
              (q.mainTime.None?
                 || (IsNumeral(Strip(q.mainTime.value)) && (q.mergeBase.None? || q.baseTime.None?))))
    ensures behind > 0 ==> (r.Success? && r.value.Some? <==>
              (q.mainTime.Some? && q.mergeBase.Some? && q.baseTime.Some?
                 && IsNumeral(Strip(q.mainTime.value)) && IsNumeral(Strip(q.baseTime.value))))
  {
    if behind <= 0 then Success(Some(0))
    else match q.mainTime
      case None => Success(None)
      case Some(m) =>
        match ParseInt(m)
        case None => Failure(ValueError)
        case Some(mainT) =>
          match q.mergeBase
          case None => Success(None)
          case Some(_) =>
            match q.baseTime
            case None => Success(None)
            case Some(b) =>
              match ParseInt(b)
              case None => Failure(ValueError)
              case Some(baseT) => Success(Some(DaysBetween(mainT, baseT)))
  }

  /** `_get_branch_info`: the queries in the order the script runs them. A failing query gives
      no information (`Success(None)`); a count or time that is not a numeral raises. */
  function BranchInfoOf(branch: string, q: BranchQueries): (r: Result<Option<BranchInfo>, Crash>)
    ensures q.counts.None? ==> r == Success(None)
    ensures r.Failure? <==>
              (q.counts.Some? && (ReadCounts(q.counts.value).None?
                 || (q.lastCommit.Some? && q.diff.Some? && DaysBehind(ReadCounts(q.counts.value).value.0, q).Failure?)))
    ensures r == Success(None) <==>
              (q.counts.None? || (ReadCounts(q.counts.value).Some?
                 && (q.lastCommit.None? || q.diff.None? || DaysBehind(ReadCounts(q.counts.value).value.0, q) == Success(None))))
    ensures r == Success(None) ==>
              q.counts.None? || q.lastCommit.None? || q.diff.None?
              || q.mainTime.None? || q.mergeBase.None? || q.baseTime.None?
    ensures r.Success? && r.value.Some? ==>
              var info := r.value.value;
              && q.lastCommit.Some? && q.diff.Some?
              && info.name == branch
              && q.counts.Some? && ReadCounts(q.counts.value) == Some((info.behind, info.ahead))
              && info.lastCommit == Strip(q.lastCommit.value)
              && DaysBehind(info.behind, q) == Success(Some(info.daysBehind))
              && (info.needsRebase <==> info.behind > 0)
              && (info.behind <= 0 ==> info.daysBehind == 0)
              && info.filesChanged == |ChangedFiles(q.diff.value)|
              && |info.files| == (if info.filesChanged <= FileListLimit then info.filesChanged else FileListLimit)
              && info.files == ChangedFiles(q.diff.value)[..|info.files|]
  {
    match q.counts
    case None => Success(None)
    case Some(c) =>
      match ReadCounts(c)
      case None => Failure(ValueError)
      case Some((behind, ahead)) =>
          match q.lastCommit
          case None => Success(None)
          case Some(lc) =>
            match q.diff
            case None => Success(None)
            case Some(d) =>
              var files := ChangedFiles(d);
              match DaysBehind(behind, q)
              case Failure(e) => Failure(e)
              case Success(None) => Success(None)
              case Success(Some(days)) =>
                Success(Some(BranchInfo(branch, ahead, behind, Strip(lc), |files|,
                                        Take(files, FileListLimit), days, behind > 0)))
  }

  /** Two numerals separated by a tab, as git prints them, split into the two numerals. */
  lemma CountFieldsSplit(b: string, a: string)
    requires |b| >= 1 && AllDigits(b) && |a| >= 1 && AllDigits(a)
    ensures SplitOn(Strip(b + "\t" + a + "\n"), '\t') == [b, a]
  {
    var line := Join([b, a], '\t');
    assert line == b + "\t" + a by {
      assert [b, a][1..] == [a];
      assert Join([a], '\t') == a;
      assert "\t" == ['\t'];
    }
    assert Trimmed(line) by {
      assert line[0] == b[0] && IsDigit(b[0]);
      assert line[|line| - 1] == a[|a| - 1] && IsDigit(a[|a| - 1]);
    }
    StripLine(line);
    assert '\t' !in b && '\t' !in a by {
      assert forall k :: 0 <= k < |b| ==> IsDigit(b[k]);
      assert forall k :: 0 <= k < |a| ==> IsDigit(a[k]);
    }
    SplitOnJoin([b, a], '\t');
  }

  /** The counts git prints, "<behind>\t<ahead>\n", are read back as behind and ahead. */
  lemma CountsReadBack(behind: nat, ahead: nat)
    ensures ReadCounts(NatToString(behind) + "\t" + NatToString(ahead) + "\n") == Some((behind, ahead))
  {
    var b := NatToString(behind);
    var a := NatToString(ahead);
    CountFieldsSplit(b, a);
    ParseIntNatToString(behind);
    ParseIntNatToString(ahead);
  }

  /** A diff listing of file names, one per line, is read back as those names. */
  lemma FilesReadBack(files: seq<string>)
    requires |files| >= 1 && forall k :: 0 <= k < |files| ==> files[k] != [] && '\n' !in files[k]
    requires Trimmed(Join(files, '\n'))
    ensures ChangedFiles(Join(files, '\n') + "\n") == files
  {
    var j := Join(files, '\n');
    StripLine(j);
    SplitOnJoin(files, '\n');
    assert SplitOn(Strip(j + "\n"), '\n') == files;
    FilterAllKept(files, NonEmpty);
  }
}
