/** `analyze_parallel_status` of `git_safety_check.py`: the feature branches, what git says about
    each, the files they both touch, and two recommendations. */
module GitParallel {
  import opened Wrappers
  import opened Seqs
  import opened Text
  import opened GitRepoState
  import opened GitBranches
  import opened GitConflicts

  /** The outputs of the status queries; `branchQueries(b)` are the queries about branch `b`. */
  datatype ParallelQueries = ParallelQueries(
    mainList: Option<string>,      // git branch -l main master
    showCurrent: Option<string>,   // git branch --show-current
    branchList: Option<string>,    // git branch -a
    branchQueries: string -> BranchQueries)

  datatype ParallelStatus = ParallelStatus(
    mainBranch: string,
    currentBranch: string,
    featureBranches: seq<BranchInfo>,
    potentialConflicts: seq<Conflict>,
    recommendations: seq<string>)

  /** The advice when there are more than `ManyBranchesLimit` feature branches. */
  const ManyBranchesAdvice := "Many parallel branches detected" + " - consider merging completed work"
  const StaleSuffix := " branches are >7 days behind main - rebase recommended"

  /** More than this many feature branches is reported. */
  const ManyBranchesLimit := 3

  /** A branch more than this many days behind main is stale. */
  const StaleDays := 7

  predicate IsStale(b: BranchInfo) {
    b.daysBehind > StaleDays
  }

  /** `[b for b in feature_branches if b.get("days_behind", 0) > 7]` */
  function StaleBranches(infos: seq<BranchInfo>): (stale: seq<BranchInfo>)
    ensures |stale| <= |infos|
    ensures stale == [] <==> forall k :: 0 <= k < |infos| ==> !IsStale(infos[k])
    ensures |stale| == |infos| <==> forall k :: 0 <= k < |infos| ==> IsStale(infos[k])
  {
    StaleCountBounds(infos);
    Filter(infos, IsStale)
  }

  /** Filtering keeps everything iff everything is stale, and nothing iff nothing is. */
  lemma StaleCountBounds(infos: seq<BranchInfo>)
    ensures Filter(infos, IsStale) == [] <==> forall k :: 0 <= k < |infos| ==> !IsStale(infos[k])
    ensures |Filter(infos, IsStale)| == |infos| <==> forall k :: 0 <= k < |infos| ==> IsStale(infos[k])
  {
    FilterNone(infos, IsStale);
    FilterKeepsAll(infos, IsStale);
  }

  /** The stale-branches recommendation, `f"{len(stale_branches)} branches are ..."`. */
  function StaleAdvice(count: nat): string {
    NatToString(count) + StaleSuffix
  }

  /** The recommendations of `analyze_parallel_status`, in the order they are added. */
  function ParallelRecommendations(infos: seq<BranchInfo>): (recs: seq<string>)
    ensures |recs| == (if |infos| > ManyBranchesLimit then 1 else 0)
                      + (if exists k :: 0 <= k < |infos| && IsStale(infos[k]) then 1 else 0)
    ensures ManyBranchesAdvice in recs <==> |infos| > ManyBranchesLimit
    ensures (exists k :: 0 <= k < |infos| && IsStale(infos[k])) <==>
              recs != [] && recs[|recs| - 1] == StaleAdvice(|StaleBranches(infos)|)
    ensures |infos| > ManyBranchesLimit ==> recs[0] == ManyBranchesAdvice
  {
    var many := if |infos| > ManyBranchesLimit then [ManyBranchesAdvice] else [];
    var stale := StaleBranches(infos);
    StaleAdviceDiffers(|stale|);
    many + (if stale != [] then [StaleAdvice(|stale|)] else [])
  }

  /** The stale-branches advice never reads as the many-branches advice. */
  lemma StaleAdviceDiffers(count: nat)
    ensures StaleAdvice(count) != ManyBranchesAdvice
  {
    var d := NatToString(count);
    assert StaleAdvice(count)[0] == d[0] && IsDigit(d[0]);
  }

  /** The number in the stale-branches advice reads back as the count. */
  lemma StaleAdviceReadsBack(count: nat)
    ensures var w := StaleAdvice(count);
            |w| > |StaleSuffix| && w[|w| - |StaleSuffix|..] == StaleSuffix
            && ParseInt(w[..|w| - |StaleSuffix|]) == Some(count)
  {
    var d := NatToString(count);
    var w := StaleAdvice(count);
    assert w[..|w| - |StaleSuffix|] == d;
    assert w[|w| - |StaleSuffix|..] == StaleSuffix;
    ParseIntNatToString(count);
  }

  /** What `_get_branch_info` makes of one branch. */
  type BranchReader = string -> Result<Option<BranchInfo>, Crash>

  /** The reader that asks git the queries `queries(b)` about branch `b`. */
  function Reader(queries: string -> BranchQueries): BranchReader {
    b => BranchInfoOf(b, queries(b))
  }

  /** Every branch the reader describes is described under its own name. */
  ghost predicate KeepsNames(read: BranchReader) {
    forall b :: read(b).Success? && read(b).value.Some? ==> read(b).value.value.name == b
  }

  lemma ReaderKeepsNames(queries: string -> BranchQueries)
    ensures KeepsNames(Reader(queries))
  {
    forall b | Reader(queries)(b).Success? && Reader(queries)(b).value.Some?
      ensures Reader(queries)(b).value.value.name == b
    {
      assert Reader(queries)(b) == BranchInfoOf(b, queries(b));
    }
  }

  /** The loop over the feature branches: `read` for every branch in turn; the first `int()`
      error ends the analysis and a branch whose queries fail is skipped. */
  function CollectInfos(branches: seq<string>, read: BranchReader): (r: Result<seq<BranchInfo>, Crash>)
    ensures r.Failure? <==> exists k :: 0 <= k < |branches| && read(branches[k]).Failure?
    ensures r.Success? ==> |r.value| <= |branches|
    ensures r.Success? ==> forall info :: info in r.value ==>
              exists k :: 0 <= k < |branches| && read(branches[k]) == Success(Some(info))
    decreases |branches|
  {
    if |branches| == 0 then Success([])
    else
      var n := |branches| - 1;
      var front := branches[..n];
      assert forall k :: 0 <= k < n ==> front[k] == branches[k];
      match CollectInfos(front, read)
      case Failure(e) => Failure(e)
      case Success(infos) =>
        match read(branches[n])
        case Failure(e) => Failure(e)
        case Success(None) => Success(infos)
        case Success(Some(info)) => Success(infos + [info])
  }

  /** A branch the reader describes is kept. */
  lemma {:induction false} DescribedBranchKept(branches: seq<string>, read: BranchReader, k: nat)
    requires k < |branches| && CollectInfos(branches, read).Success?
    requires read(branches[k]).Success? && read(branches[k]).value.Some?
    ensures read(branches[k]).value.value in CollectInfos(branches, read).value
    decreases |branches|
  {
    var n := |branches| - 1;
    if k < n {
      assert branches[..n][k] == branches[k];
      DescribedBranchKept(branches[..n], read, k);
    }
  }

  /** The branches the reader does not skip. */
  function Describes(read: BranchReader): string -> bool {
    b => read(b) != Success(None)
  }

  /** The kept branches keep the order of the listing: the i-th result describes the i-th branch
      the reader does not skip. */
  lemma {:induction false} CollectedInListingOrder(branches: seq<string>, read: BranchReader)
    requires CollectInfos(branches, read).Success?
    ensures var infos := CollectInfos(branches, read).value;
            var kept := Filter(branches, Describes(read));
            |infos| == |kept| && forall i :: 0 <= i < |infos| ==> read(kept[i]) == Success(Some(infos[i]))
    decreases |branches|
  {
    if |branches| > 0 {
      var n := |branches| - 1;
      var front, b := branches[..n], branches[n];
      CollectedInListingOrder(front, read);
      assert branches == front + [b];
      FilterSnoc(front, b, Describes(read));
      var infos0, kept0 := CollectInfos(front, read).value, Filter(front, Describes(read));
      var infos, kept := CollectInfos(branches, read).value, Filter(branches, Describes(read));
      if read(b) == Success(None) {
        assert infos == infos0 && kept == kept0;
      } else {
        assert infos == infos0 + [read(b).value.value];
        assert kept == kept0 + [b];
      }
    }
  }

  /** Every kept branch is one of the feature branches, under the same name. */
  lemma CollectedNames(branches: seq<string>, read: BranchReader)
    requires KeepsNames(read) && CollectInfos(branches, read).Success?
    ensures forall info :: info in CollectInfos(branches, read).value ==> info.name in branches
  {
    forall info | info in CollectInfos(branches, read).value
      ensures info.name in branches
    {
      var k :| 0 <= k < |branches| && read(branches[k]) == Success(Some(info));
    }
  }

  /** `analyze_parallel_status` */
  function AnalyzeParallelStatus(q: ParallelQueries): (r: Result<ParallelStatus, Crash>)
    ensures r.Failure? <==>
              exists k :: 0 <= k < |FeatureBranches(q.branchList)|
                          && Reader(q.branchQueries)(FeatureBranches(q.branchList)[k]).Failure?
    ensures r.Success? ==>
              && r.value.mainBranch == MainBranch(q.mainList)
              && r.value.currentBranch == CurrentBranch(q.showCurrent)
              && Success(r.value.featureBranches) == CollectInfos(FeatureBranches(q.branchList), Reader(q.branchQueries))
              && IsMainName(r.value.mainBranch)
              && (forall info :: info in r.value.featureBranches ==> IsFeatureName(info.name))
              && r.value.potentialConflicts == Conflicts(r.value.featureBranches)
              && r.value.recommendations == ParallelRecommendations(r.value.featureBranches)
  {
    var main := MainBranch(q.mainList);
    var current := CurrentBranch(q.showCurrent);
    var branches := FeatureBranches(q.branchList);
    var read := Reader(q.branchQueries);
    match CollectInfos(branches, read)
    case Failure(e) => Failure(e)
    case Success(infos) =>
      ReaderKeepsNames(q.branchQueries);
      CollectedNames(branches, read);
      Success(ParallelStatus(main, current, infos, Conflicts(infos), ParallelRecommendations(infos)))
  }
}
