/** `analyze_repo_state` of `git_safety_check.py`: four git queries read into a summary of the
    working copy, and three independent checks on it. */
module GitRepoState {
  import opened Wrappers
  import opened Text

  /** The standard output of each git query, or `None` when the query exits with an error
      (`CalledProcessError`). */
  datatype RepoQueries = RepoQueries(
    showCurrent: Option<string>,  // git branch --show-current
    porcelain: Option<string>,    // git status --porcelain
    unpushed: Option<string>,     // git rev-list --count @{u}..HEAD
    stashList: Option<string>)    // git stash list

  datatype RepoState = RepoState(
    branch: string,
    uncommittedChanges: bool,
    unpushedCommits: int,
    stashCount: nat,
    warnings: seq<string>,
    recommendations: seq<string>)

  const UncommittedWarning := "Uncommitted changes detected"
  const UncommittedAdvice := "Commit or stash changes before risky operations"
  const UnpushedSuffix := " unpushed commits"
  const UnpushedAdvice := "Consider pushing more frequently"
  const OnMainWarning := "Working directly on main/master branch"
  const OnMainAdvice := "Create a feature branch for changes"

  /** More than this many unpushed commits is reported. */
  const UnpushedLimit := 5

  /** `_get_current_branch`: the branch name, or "unknown" when git fails. */
  function CurrentBranch(out: Option<string>): (b: string)
    ensures out.None? ==> b == "unknown"
    ensures out.Some? ==> Trimmed(b) && SpaceAround(out.value, b) && (b == [] <==> AllSpace(out.value))
  {
    match out
    case None => "unknown"
    case Some(o) => Strip(o)
  }

  /** The branch name git prints, newline-terminated, is read back exactly. */
  lemma CurrentBranchReadsName(name: string)
    requires Trimmed(name)
    ensures CurrentBranch(Some(name + "\n")) == name
  {
    assert name + "\n" == [] + name + "\n";
    StripPadded([], name, "\n");
  }

  /** `_has_uncommitted_changes`: `git status --porcelain` printed something other than
      whitespace. */
  function HasUncommittedChanges(out: Option<string>): (b: bool)
    ensures b <==> out.Some? && !AllSpace(out.value)
  {
    match out
    case None => false
    case Some(o) => Strip(o) != []
  }

  /** `_count_unpushed_commits`: the count git printed; a failing git gives 0, but output that
      is not a numeral makes `int()` raise. */
  function CountUnpushed(out: Option<string>): (r: Result<int, Crash>)
    ensures out.None? ==> r == Success(0)
    ensures out.Some? ==> (r.Failure? <==> !IsNumeral(Strip(out.value)))
    ensures out.Some? ==> forall sign, digits :: SignedNumeral(Strip(out.value), sign, digits) ==>
              r == Success(SignedValue(sign, digits))
  {
    match out
    case None => Success(0)
    case Some(o) =>
      match ParseInt(o)
      case None => Failure(ValueError)
      case Some(n) => Success(n)
  }

  /** `_count_stashes`: one stash per line of `git stash list`; blank output is no stash. */
  function CountStashes(out: Option<string>): (n: nat)
    ensures n == 0 <==> out.None? || AllSpace(out.value)
  {
    match out
    case None => 0
    case Some(o) =>
      var t := Strip(o);
      if t == [] then 0 else |SplitOn(t, '\n')|
  }

  /** The warning for `n` unpushed commits, `f"{n} unpushed commits"`. */
  function UnpushedWarning(n: int): (w: string)
    requires n > UnpushedLimit
  {
    NatToString(n) + UnpushedSuffix
  }

  /** A reported problem: the warning and the recommendation added with it. */
  datatype Issue = Issue(warning: string, advice: string)

  /** The three checks of `analyze_repo_state`, in the order they run. */
  function RepoIssues(branch: string, uncommitted: bool, unpushed: int): (issues: seq<Issue>)
    ensures |issues| == (if uncommitted then 1 else 0) + (if unpushed > UnpushedLimit then 1 else 0)
                        + (if branch == "main" || branch == "master" then 1 else 0)
    ensures Issue(UncommittedWarning, UncommittedAdvice) in issues <==> uncommitted
    ensures (exists k :: 0 <= k < |issues| && issues[k].advice == UnpushedAdvice) <==> unpushed > UnpushedLimit
    ensures Issue(OnMainWarning, OnMainAdvice) in issues <==> branch == "main" || branch == "master"
    ensures uncommitted ==> issues[0].warning == UncommittedWarning
    ensures (branch == "main" || branch == "master") ==> issues[|issues| - 1].warning == OnMainWarning
    ensures forall k :: 0 <= k < |issues| && issues[k].advice == UnpushedAdvice ==>
              unpushed > UnpushedLimit && issues[k].warning == UnpushedWarning(unpushed)
  {
    var c1 := if uncommitted then [Issue(UncommittedWarning, UncommittedAdvice)] else [];
    var c2 := if unpushed > UnpushedLimit then [Issue(UnpushedWarning(unpushed), UnpushedAdvice)] else [];
    var c3 := if branch == "main" || branch == "master" then [Issue(OnMainWarning, OnMainAdvice)] else [];
    WarningsDistinct(unpushed);
    var issues := c1 + c2 + c3;
    assert unpushed > UnpushedLimit ==> issues[|c1|].advice == UnpushedAdvice;
    issues
  }

  function Warnings(issues: seq<Issue>): (w: seq<string>)
    ensures |w| == |issues| && forall k :: 0 <= k < |issues| ==> w[k] == issues[k].warning
  {
    seq(|issues|, k requires 0 <= k < |issues| => issues[k].warning)
  }

  function Advices(issues: seq<Issue>): (a: seq<string>)
    ensures |a| == |issues| && forall k :: 0 <= k < |issues| ==> a[k] == issues[k].advice
  {
    seq(|issues|, k requires 0 <= k < |issues| => issues[k].advice)
  }

  /** `analyze_repo_state`: the queries run in the order of the result's keys, and only the
      unpushed count can stop the analysis, when git prints something that is not a numeral;
      the warnings and recommendations are the checks' findings, paired position by position. */
  function AnalyzeRepoState(q: RepoQueries): (r: Result<RepoState, Crash>)
    ensures r.Failure? <==> q.unpushed.Some? && !IsNumeral(Strip(q.unpushed.value))
    ensures r.Success? ==>
              && r.value.branch == CurrentBranch(q.showCurrent)
              && r.value.uncommittedChanges == HasUncommittedChanges(q.porcelain)
              && CountUnpushed(q.unpushed) == Success(r.value.unpushedCommits)
              && r.value.stashCount == CountStashes(q.stashList)
    ensures r.Success? && q.unpushed.None? ==> r.value.unpushedCommits == 0
    ensures r.Success? ==>
              var issues := RepoIssues(r.value.branch, r.value.uncommittedChanges, r.value.unpushedCommits);
              r.value.warnings == Warnings(issues) && r.value.recommendations == Advices(issues)
    ensures r.Success? ==> (r.value.uncommittedChanges <==> q.porcelain.Some? && !AllSpace(q.porcelain.value))
    ensures r.Success? ==> (r.value.stashCount == 0 <==> q.stashList.None? || AllSpace(q.stashList.value))
  {
    var branch := CurrentBranch(q.showCurrent);
    var uncommitted := HasUncommittedChanges(q.porcelain);
    match CountUnpushed(q.unpushed)
    case Failure(e) => Failure(e)
    case Success(unpushed) =>
      var stashes := CountStashes(q.stashList);
      var issues := RepoIssues(branch, uncommitted, unpushed);
      Success(RepoState(branch, uncommitted, unpushed, stashes, Warnings(issues), Advices(issues)))
  }

  /** The three warnings are different texts, whatever the unpushed count. */
  lemma WarningsDistinct(n: int)
    ensures n > UnpushedLimit ==>
              UnpushedWarning(n) != UncommittedWarning && UnpushedWarning(n) != OnMainWarning
    ensures UncommittedWarning != OnMainWarning
    ensures UnpushedAdvice != UncommittedAdvice && UnpushedAdvice != OnMainAdvice
  {
    if n > UnpushedLimit {
      var w := UnpushedWarning(n);
      var d := NatToString(n);
      assert w[0] == d[0] && IsDigit(d[0]);
    }
  }

  /** The count in the unpushed-commits warning reads back as the count. */
  lemma UnpushedWarningReadsBack(n: int)
    requires n > UnpushedLimit
    ensures var w := UnpushedWarning(n);
            |w| > |UnpushedSuffix| && w[|w| - |UnpushedSuffix|..] == UnpushedSuffix
            && ParseInt(w[..|w| - |UnpushedSuffix|]) == Some(n)
  {
    var d := NatToString(n);
    var w := UnpushedWarning(n);
    assert w[..|w| - |UnpushedSuffix|] == d;
    assert w[|w| - |UnpushedSuffix|..] == UnpushedSuffix;
    ParseIntNatToString(n);
  }

  /** The count git prints, newline-terminated, is read back exactly. */
  lemma CountUnpushedReadsCount(n: nat)
    ensures CountUnpushed(Some(NatToString(n) + "\n")) == Success(n)
  {
    var d := NatToString(n);
    assert Trimmed(d) by {
      assert IsDigit(d[0]) && IsDigit(d[|d| - 1]);
    }
    assert d + "\n" == [] + d + "\n";
    StripPadded([], d, "\n");
    ParseIntNatToString(n);
  }

  /** One newline-terminated line per stash gives the number of stashes. */
  lemma CountStashesCountsLines(entries: seq<string>)
    requires |entries| >= 1
    requires forall k :: 0 <= k < |entries| ==> '\n' !in entries[k]
    requires Trimmed(Join(entries, '\n')) && Join(entries, '\n') != []
    ensures CountStashes(Some(Join(entries, '\n') + "\n")) == |entries|
  {
    var j := Join(entries, '\n');
    StripLine(j);
    SplitOnJoin(entries, '\n');
    assert CountStashes(Some(j + "\n")) == |SplitOn(j, '\n')|;
  }
}
