/** `doc_sync.py`: the documentation drift check. The file system is given as the listings of
    the two documentation directories, the text of each file (or `None` when it cannot be
    read), and which relative paths exist. */
module DocSync {
  import opened Wrappers
  import opened Seqs
  import opened Text

  // ----- counting a marker: `re.findall(marker, content, re.IGNORECASE)` -----

  /** The literal token `tok` matches `s` at position `i`, ignoring case. */
  predicate MatchesAt(s: string, tok: string, i: nat) {
    i + |tok| <= |s| && EqualIgnoringCase(s[i..i + |tok|], tok)
  }

  /** The start of every match from position `i` on, scanning left to right and resuming after
      each match, as `findall` does. */
  function FindFrom(s: string, tok: string, i: nat): (ps: seq<nat>)
    requires |tok| > 0 && i <= |s|
    ensures forall k :: 0 <= k < |ps| ==> i <= ps[k] && ps[k] + |tok| <= |s|
    decreases |s| - i
  {
    if i + |tok| > |s| then []
    else if MatchesAt(s, tok, i) then [i] + FindFrom(s, tok, i + |tok|)
    else FindFrom(s, tok, i + 1)
  }

  /** The starts of the non-overlapping matches of `tok` in `s`. */
  function FindAll(s: string, tok: string): seq<nat>
    requires |tok| > 0
  {
    FindFrom(s, tok, 0)
  }

  /** What `findall` finds: every position starts a match, the matches do not overlap, and
      every match starts at one of them or lies inside one. */
  lemma FindAllMatches(s: string, tok: string)
    requires |tok| > 0
    ensures var ps := FindAll(s, tok);
            && AllMatch(s, tok, ps) && Apart(ps, |tok|)
            && forall j :: 0 <= j <= |s| && MatchesAt(s, tok, j) ==> Covered(ps, |tok|, j)
  {
    FindFromSound(s, tok, 0);
    FindFromApart(s, tok, 0);
    forall j | 0 <= j <= |s| && MatchesAt(s, tok, j)
      ensures Covered(FindFrom(s, tok, 0), |tok|, j)
    {
      FindFromComplete(s, tok, 0, j);
    }
  }

  /** Every position of `ps` starts a match. */
  predicate AllMatch(s: string, tok: string, ps: seq<nat>) {
    forall k :: 0 <= k < |ps| ==> MatchesAt(s, tok, ps[k])
  }

  /** Consecutive positions of `ps` are at least `n` apart: matches of length `n` do not
      overlap. */
  predicate Apart(ps: seq<nat>, n: nat) {
    forall k :: 0 <= k < |ps| - 1 ==> ps[k] + n <= ps[k + 1]
  }

  /** Position `j` lies inside one of the matches of length `n` starting at `ps`. */
  predicate Covered(ps: seq<nat>, n: nat, j: nat) {
    exists k :: 0 <= k < |ps| && ps[k] <= j < ps[k] + n
  }

  /** Every reported position is a match. */
  lemma FindFromSound(s: string, tok: string, i: nat)
    requires |tok| > 0 && i <= |s|
    ensures AllMatch(s, tok, FindFrom(s, tok, i))
  {
    var ps := FindFrom(s, tok, i);
    forall k | 0 <= k < |ps|
      ensures MatchesAt(s, tok, ps[k])
    {
      FindFromAt(s, tok, i, k);
    }
  }

  /** The `k`-th reported position is a match. */
  lemma {:induction false} FindFromAt(s: string, tok: string, i: nat, k: nat)
    requires |tok| > 0 && i <= |s| && k < |FindFrom(s, tok, i)|
    ensures MatchesAt(s, tok, FindFrom(s, tok, i)[k])
    decreases |s| - i
  {
    if MatchesAt(s, tok, i) {
      var rest := FindFrom(s, tok, i + |tok|);
      assert FindFrom(s, tok, i) == [i] + rest;
      if k > 0 {
        FindFromAt(s, tok, i + |tok|, k - 1);
        assert FindFrom(s, tok, i)[k] == rest[k - 1];
      }
    } else {
      FindFromAt(s, tok, i + 1, k);
    }
  }

  /** Each reported match ends before the next one starts. */
  lemma {:induction false} FindFromApart(s: string, tok: string, i: nat)
    requires |tok| > 0 && i <= |s|
    ensures Apart(FindFrom(s, tok, i), |tok|)
    decreases |s| - i
  {
    if i + |tok| <= |s| {
      FindFromStep(s, tok, i);
      if MatchesAt(s, tok, i) {
        var rest := FindFrom(s, tok, i + |tok|);
        FindFromApart(s, tok, i + |tok|);
        ApartCons(i, rest, |tok|);
      } else {
        FindFromApart(s, tok, i + 1);
      }
    }
  }

  /** A position far enough in front of positions that are apart keeps them apart. */
  lemma ApartCons(i: nat, rest: seq<nat>, n: nat)
    requires Apart(rest, n) && forall k :: 0 <= k < |rest| ==> i + n <= rest[k]
    ensures Apart([i] + rest, n)
  {
    var ps := [i] + rest;
    forall k | 0 <= k < |ps| - 1
      ensures ps[k] + n <= ps[k + 1]
    {
      assert ps[k + 1] == rest[k];
      if k > 0 {
        assert ps[k] == rest[k - 1];
      }
    }
  }

  /** No match starts in `[i, e)`. */
  predicate NoMatchBetween(s: string, tok: string, i: nat, e: nat) {
    forall j :: i <= j < e ==> !MatchesAt(s, tok, j)
  }

  /** Nothing is reported iff nothing matches. */
  lemma {:induction false} FindFromNone(s: string, tok: string, i: nat)
    requires |tok| > 0 && i <= |s|
    ensures FindFrom(s, tok, i) == [] <==> NoMatchBetween(s, tok, i, |s| + 1)
    decreases |s| - i
  {
    if i + |tok| <= |s| {
      FindFromStep(s, tok, i);
      if !MatchesAt(s, tok, i) {
        FindFromNone(s, tok, i + 1);
      }
    }
  }

  /** The first reported position is the first match. */
  lemma {:induction false} FindFromHead(s: string, tok: string, i: nat)
    requires |tok| > 0 && i <= |s| && FindFrom(s, tok, i) != []
    ensures MatchesAt(s, tok, FindFrom(s, tok, i)[0])
    ensures NoMatchBetween(s, tok, i, FindFrom(s, tok, i)[0])
    decreases |s| - i
  {
    FindFromStep(s, tok, i);
    if !MatchesAt(s, tok, i) {
      FindFromHead(s, tok, i + 1);
    }
  }

  /** No match is skipped: every position where the token matches starts a reported match or
      lies inside one. */
  lemma {:induction false} FindFromComplete(s: string, tok: string, i: nat, j: nat)
    requires |tok| > 0 && i <= j <= |s| && MatchesAt(s, tok, j)
    ensures Covered(FindFrom(s, tok, i), |tok|, j)
    decreases |s| - i
  {
    var ps := FindFrom(s, tok, i);
    if MatchesAt(s, tok, i) {
      var rest := FindFrom(s, tok, i + |tok|);
      assert ps == [i] + rest;
      if j >= i + |tok| {
        FindFromComplete(s, tok, i + |tok|, j);
        var k :| 0 <= k < |rest| && rest[k] <= j < rest[k] + |tok|;
        assert ps[k + 1] == rest[k];
      } else {
        assert ps[0] <= j < ps[0] + |tok|;
      }
    } else {
      FindFromComplete(s, tok, i + 1, j);
    }
  }

  /** The loop `findall` runs: at a match, record it and skip past it; otherwise move on. */
  method FindAllLoop(s: string, tok: string) returns (ps: seq<nat>)
    requires |tok| > 0
    ensures ps == FindAll(s, tok)
  {
    ps := [];
    var i: nat := 0;
    while i + |tok| <= |s|
      invariant ScanSoFar(ps, s, tok, i)
      decreases |s| - i
    {
      if MatchesAt(s, tok, i) {
        FindLoopMatch(ps, s, tok, i);
        ps, i := ps + [i], i + |tok|;
      } else {
        FindLoopSkip(ps, s, tok, i);
        i := i + 1;
      }
    }
    assert ps + [] == ps;
  }

  /** One step of the scan. */
  lemma FindFromStep(s: string, tok: string, i: nat)
    requires |tok| > 0 && i + |tok| <= |s|
    ensures MatchesAt(s, tok, i) ==> FindFrom(s, tok, i) == [i] + FindFrom(s, tok, i + |tok|)
    ensures !MatchesAt(s, tok, i) ==> FindFrom(s, tok, i) == FindFrom(s, tok, i + 1)
  {
  }

  /** The matches recorded before position `i`, followed by the scan from `i`, are the whole
      scan. */
  ghost predicate ScanSoFar(ps: seq<nat>, s: string, tok: string, i: nat) {
    |tok| > 0 && i <= |s| && ps + FindFrom(s, tok, i) == FindFrom(s, tok, 0)
  }

  /** At a match the scan records it and resumes after it. */
  lemma FindLoopMatch(ps: seq<nat>, s: string, tok: string, i: nat)
    requires |tok| > 0 && i + |tok| <= |s| && MatchesAt(s, tok, i)
    requires ScanSoFar(ps, s, tok, i)
    ensures ScanSoFar(ps + [i], s, tok, i + |tok|)
  {
    assert FindFrom(s, tok, i) == [i] + FindFrom(s, tok, i + |tok|);
    AppendAssoc(ps, [i], FindFrom(s, tok, i + |tok|));
  }

  /** Elsewhere the scan moves on by one. */
  lemma FindLoopSkip(ps: seq<nat>, s: string, tok: string, i: nat)
    requires |tok| > 0 && i + |tok| <= |s| && !MatchesAt(s, tok, i)
    requires ScanSoFar(ps, s, tok, i)
    ensures ScanSoFar(ps, s, tok, i + 1)
  {
    FindFromStep(s, tok, i);
  }

  // ----- the four markers of `_check_stale_markers` -----

  const NeedsClarification := "[NEEDS CLARIFICATION]"
  const TodoMarker := "[TODO]"
  const TbdMarker := "[TBD]"
  const PendingMarker := "[PENDING]"

  /** The markers, in the order they are searched for. */
  const Markers: seq<string> := [NeedsClarification, TodoMarker, TbdMarker, PendingMarker]

  /** One stale-marker record: the file, the first match as written in the file, and the number
      of matches. */
  datatype MarkerHit = MarkerHit(file: string, marker: string, count: nat)

  /** A document of one of the two directories: its path relative to the project and its text,
      `None` when `read_text` raises. */
  datatype Doc = Doc(path: string, content: Option<string>)

  /** The record for marker `tok` in `content`, when it matches at all. */
  function MarkerRecord(file: string, content: string, tok: string): (r: seq<MarkerHit>)
    requires |tok| > 0
    ensures |r| <= 1
    ensures r == [] <==> !Found(content, tok)
    ensures r != [] ==>
              && r[0].file == file && r[0].count == |FindAll(content, tok)| >= 1
              && |r[0].marker| == |tok| && EqualIgnoringCase(r[0].marker, tok)
              && r[0].marker == content[FindAll(content, tok)[0]..FindAll(content, tok)[0] + |tok|]
              && forall j :: 0 <= j < FindAll(content, tok)[0] ==> !MatchesAt(content, tok, j)
  {
    var ps := FindAll(content, tok);
    FindFromNone(content, tok, 0);
    if ps == [] then []
    else
      FindFromHead(content, tok, 0);
      [MarkerHit(file, content[ps[0]..ps[0] + |tok|], |ps|)]
  }

  /** The token matches somewhere in `content`. */
  ghost predicate Found(content: string, tok: string) {
    exists j :: 0 <= j <= |content| && MatchesAt(content, tok, j)
  }

  /** No two of `toks` have the same length, so no text matches two of them. */
  predicate LengthsDiffer(toks: seq<string>) {
    forall i, j :: 0 <= i < j < |toks| ==> |toks[i]| != |toks[j]|
  }

  lemma MarkersLengthsDiffer()
    ensures forall k :: 0 <= k < |Markers| ==> |Markers[k]| > 0
    ensures LengthsDiffer(Markers)
  {
    assert |NeedsClarification| == 21 && |TodoMarker| == 6 && |TbdMarker| == 5 && |PendingMarker| == 9;
  }

  /** The records of the markers `toks`, in their order, for a readable file. */
  function RecordsFor(file: string, content: string, toks: seq<string>): (r: seq<MarkerHit>)
    requires forall k :: 0 <= k < |toks| ==> |toks[k]| > 0
    ensures |r| <= |toks|
    ensures forall k :: 0 <= k < |r| ==> r[k].file == file && r[k].count >= 1
    decreases |toks|
  {
    if |toks| == 0 then []
    else
      var n := |toks| - 1;
      RecordsFor(file, content, toks[..n]) + MarkerRecord(file, content, toks[n])
  }

  /** `_check_stale_markers(doc)`: the records of the four markers, in the order of `Markers`;
      nothing when the file cannot be read. */
  function FileMarkers(doc: Doc): (r: seq<MarkerHit>)
    ensures |r| <= |Markers|
    ensures doc.content.None? ==> r == []
    ensures forall k :: 0 <= k < |r| ==> r[k].file == doc.path && r[k].count >= 1
  {
    match doc.content
    case None => []
    case Some(c) =>
      MarkersLengthsDiffer();
      RecordsFor(doc.path, c, Markers)
  }

  /** Some record of `r` is for marker `t`. */
  predicate HasRecordFor(r: seq<MarkerHit>, t: string) {
    exists k :: 0 <= k < |r| && EqualIgnoringCase(r[k].marker, t)
  }

  /** Every record of `r` for marker `t` is `rec`. */
  predicate OnlyRecordFor(r: seq<MarkerHit>, t: string, rec: MarkerHit) {
    forall k :: 0 <= k < |r| && EqualIgnoringCase(r[k].marker, t) ==> r[k] == rec
  }

  /** Records of markers of another length are never for `t`. */
  lemma {:induction false} ForeignRecords(file: string, content: string, toks: seq<string>, t: string)
    requires forall k :: 0 <= k < |toks| ==> |toks[k]| > 0 && |toks[k]| != |t|
    ensures !HasRecordFor(RecordsFor(file, content, toks), t)
    decreases |toks|
  {
    if |toks| > 0 {
      var n := |toks| - 1;
      var prev := RecordsFor(file, content, toks[..n]);
      var last := MarkerRecord(file, content, toks[n]);
      var r := RecordsFor(file, content, toks);
      assert r == prev + last;
      ForeignRecords(file, content, toks[..n], t);
      forall k | 0 <= k < |r|
        ensures !EqualIgnoringCase(r[k].marker, t)
      {
        if k < |prev| {
          assert r[k] == prev[k];
        } else {
          assert r[k] == last[0];
        }
      }
    }
  }

  /** Among records of markers of different lengths, a marker has a record iff it occurs, and
      that record is its own. */
  lemma {:induction false} RecordsForReport(file: string, content: string, toks: seq<string>, t: string)
    requires forall k :: 0 <= k < |toks| ==> |toks[k]| > 0
    requires LengthsDiffer(toks) && t in toks
    ensures HasRecordFor(RecordsFor(file, content, toks), t) <==> Found(content, t)
    ensures Found(content, t) ==>
              OnlyRecordFor(RecordsFor(file, content, toks), t, MarkerRecord(file, content, t)[0])
    decreases |toks|
  {
    var n := |toks| - 1;
    var front := toks[..n];
    if t == toks[n] {
      RecordsForReportLast(file, content, toks, t);
    } else {
      RecordsForSnoc(file, content, toks);
      var m :| 0 <= m < |toks| && toks[m] == t;
      assert m < n && front[m] == t;
      assert LengthsDiffer(front);
      RecordsForReport(file, content, front, t);
      assert |toks[m]| != |toks[n]|;
      var prev, last := RecordsFor(file, content, front), MarkerRecord(file, content, toks[n]);
      assert RecordsFor(file, content, toks) == prev + last;
      RecordsForFront(prev, last, t);
      if Found(content, t) {
        var rec := MarkerRecord(file, content, t)[0];
        assert OnlyRecordFor(prev, t, rec);
        assert OnlyRecordFor(prev + last, t, rec);
      }
    }
  }

  /** The case of `RecordsForReport` where `t` is the last marker. */
  lemma RecordsForReportLast(file: string, content: string, toks: seq<string>, t: string)
    requires forall k :: 0 <= k < |toks| ==> |toks[k]| > 0
    requires LengthsDiffer(toks) && |toks| > 0 && t == toks[|toks| - 1]
    ensures HasRecordFor(RecordsFor(file, content, toks), t) <==> Found(content, t)
    ensures Found(content, t) ==>
              OnlyRecordFor(RecordsFor(file, content, toks), t, MarkerRecord(file, content, t)[0])
  {
    var n := |toks| - 1;
    var front := toks[..n];
    var prev, last := RecordsFor(file, content, front), MarkerRecord(file, content, t);
    RecordsForSnoc(file, content, toks);
    assert RecordsFor(file, content, toks) == prev + last;
    assert forall k :: 0 <= k < |front| ==> |front[k]| > 0 && |front[k]| != |t| by {
      assert forall k :: 0 <= k < |front| ==> front[k] == toks[k];
    }
    ForeignRecords(file, content, front, t);
    RecordsForLast(prev, last, t);
  }

  /** When only the last part can hold a record for `t`, the records for `t` are those of the last
      part. */
  lemma RecordsForLast(prev: seq<MarkerHit>, last: seq<MarkerHit>, t: string)
    requires !HasRecordFor(prev, t) && |last| <= 1
    requires last != [] ==> EqualIgnoringCase(last[0].marker, t)
    ensures HasRecordFor(prev + last, t) <==> last != []
    ensures last != [] ==> OnlyRecordFor(prev + last, t, last[0])
  {
    var r := prev + last;
    if last != [] {
      assert r[|prev|] == last[0];
    }
    assert forall k :: 0 <= k < |prev| ==> r[k] == prev[k];
    forall k | 0 <= k < |r| && EqualIgnoringCase(r[k].marker, t)
      ensures k == |prev| && r[k] == last[0]
    {
    }
  }

  /** When the last part holds no record for `t`, the records for `t` are those of the front. */
  lemma RecordsForFront(prev: seq<MarkerHit>, last: seq<MarkerHit>, t: string)
    requires !HasRecordFor(last, t)
    ensures HasRecordFor(prev + last, t) <==> HasRecordFor(prev, t)
    ensures forall rec :: OnlyRecordFor(prev, t, rec) ==> OnlyRecordFor(prev + last, t, rec)
  {
    var r := prev + last;
    assert forall k :: |prev| <= k < |r| ==> r[k] == last[k - |prev|];
    forall k | 0 <= k < |r| && EqualIgnoringCase(r[k].marker, t)
      ensures k < |prev| && r[k] == prev[k]
    {
    }
    if HasRecordFor(prev, t) {
      var k :| 0 <= k < |prev| && EqualIgnoringCase(prev[k].marker, t);
      assert r[k] == prev[k];
    }
  }

  /** A readable file has a record for a marker iff the marker occurs in it, ignoring case; that
      record holds the first occurrence as written and the number of non-overlapping
      occurrences. */
  lemma FileMarkersReportEach(doc: Doc, t: string)
    requires t in Markers && doc.content.Some?
    ensures HasRecordFor(FileMarkers(doc), t) <==> Found(doc.content.value, t)
    ensures Found(doc.content.value, t) ==>
              OnlyRecordFor(FileMarkers(doc), t, MarkerRecord(doc.path, doc.content.value, t)[0])
  {
    MarkersLengthsDiffer();
    RecordsForReport(doc.path, doc.content.value, Markers, t);
  }

  // ----- the whole check: `check_drift` -----

  const SpecsDir := ".ultra/specs/"
  const DocsDir := "docs/"
  const ProductDoc := "product.md"
  const ArchitectureDoc := "architecture.md"

  /** The documents `check_drift` expects, with their descriptions. */
  const ExpectedDocs: seq<(string, string)> := [
    (SpecsDir + ProductDoc, "Product requirements"),
    (SpecsDir + ArchitectureDoc, "Architecture decisions")
  ]

  const ReviewAdvice := "Review and resolve [NEEDS CLARIFICATION] markers"
  const CreateAdvice := "Create missing specification documents"

  datatype DriftReport = DriftReport(
    specsFound: seq<string>,
    missingDocs: seq<string>,
    staleMarkers: seq<MarkerHit>,
    warnings: seq<string>,
    recommendations: seq<string>)

  /** The legacy locations tried for an expected document, each made by one `replace`. */
  function LegacyPaths(path: string): (candidates: seq<string>)
    ensures |candidates| == 3
  {
    [ReplaceAll(path, SpecsDir, DocsDir),
     ReplaceAll(path, "product.md", "prd.md"),
     ReplaceAll(path, "architecture.md", "tech.md")]
  }

  /** The product document is looked for in `docs/`, as `prd.md`, and (by the replacement that
      does not apply) at its own path again. */
  lemma ProductCandidates()
    ensures LegacyPaths(SpecsDir + ProductDoc) == [DocsDir + ProductDoc, SpecsDir + "prd.md", SpecsDir + ProductDoc]
  {
    assert |ProductDoc| < |SpecsDir|;
    MovedToDocs(ProductDoc);
    ProductRenamed();
    ProductNotArchitecture();
  }

  /** The architecture document is looked for in `docs/`, (by the replacement that does not
      apply) at its own path again, and as `tech.md`. */
  lemma ArchitectureCandidates()
    ensures LegacyPaths(SpecsDir + ArchitectureDoc) ==
              [DocsDir + ArchitectureDoc, SpecsDir + ArchitectureDoc, SpecsDir + "tech.md"]
  {
    NoOccurrenceByPair(ArchitectureDoc, SpecsDir, 0, |ArchitectureDoc|);
    MovedToDocs(ArchitectureDoc);
    ArchitectureNotProduct();
    ArchitectureRenamed();
  }

  /** Moving a file name of `.ultra/specs/` to `docs/`. */
  lemma MovedToDocs(name: string)
    requires forall i: nat :: i < |name| ==> !OccursAt(name, SpecsDir, i)
    ensures ReplaceAll(SpecsDir + name, SpecsDir, DocsDir) == DocsDir + name
  {
    ReplaceAllLeading(SpecsDir, DocsDir, name);
    assert !Occurs(name, SpecsDir);
    ReplaceAllAbsent(name, SpecsDir, DocsDir);
  }

  lemma ProductRenamed()
    ensures ReplaceAll(SpecsDir + ProductDoc, ProductDoc, "prd.md") == SpecsDir + "prd.md"
  {
    var s := SpecsDir + ProductDoc;
    NoOccurrenceByPair(s, ProductDoc, 0, |SpecsDir|);
    assert s == SpecsDir + ProductDoc + [];
    ReplaceAllFirstOccurrence(SpecsDir, ProductDoc, "prd.md", []);
  }

  lemma ProductNotArchitecture()
    ensures ReplaceAll(SpecsDir + ProductDoc, ArchitectureDoc, "tech.md") == SpecsDir + ProductDoc
  {
    var s := SpecsDir + ProductDoc;
    NoOccurrenceByPair(s, ArchitectureDoc, 0, |s|);
    ReplaceAllAbsent(s, ArchitectureDoc, "tech.md");
  }

  lemma ArchitectureNotProduct()
    ensures ReplaceAll(SpecsDir + ArchitectureDoc, ProductDoc, "prd.md") == SpecsDir + ArchitectureDoc
  {
    var s := SpecsDir + ArchitectureDoc;
    NoOccurrenceByPair(s, ProductDoc, 0, |s|);
    ReplaceAllAbsent(s, ProductDoc, "prd.md");
  }

  lemma ArchitectureRenamed()
    ensures ReplaceAll(SpecsDir + ArchitectureDoc, ArchitectureDoc, "tech.md") == SpecsDir + "tech.md"
  {
    var s := SpecsDir + ArchitectureDoc;
    NoOccurrenceByPair(s, ArchitectureDoc, 0, |SpecsDir|);
    assert s == SpecsDir + ArchitectureDoc + [];
    ReplaceAllFirstOccurrence(SpecsDir, ArchitectureDoc, "tech.md", []);
  }

  /** The message for a missing document, `f"{path} ({description})"`. */
  function MissingMessage(path: string, description: string): string {
    path + " (" + description + ")"
  }

  /** Neither the document nor any of its legacy candidates exists. */
  predicate Missing(path: string, present: string -> bool) {
    !present(path) && forall c :: c in LegacyPaths(path) ==> !present(c)
  }

  /** The missing-documents loop over `expected`, in order. */
  function MissingDocs(expected: seq<(string, string)>, present: string -> bool): (missing: seq<string>)
    ensures |missing| <= |expected|
    ensures forall k :: 0 <= k < |expected| && Missing(expected[k].0, present) ==>
              MissingMessage(expected[k].0, expected[k].1) in missing
    ensures forall m :: m in missing ==>
              exists k :: 0 <= k < |expected| && Missing(expected[k].0, present)
                          && m == MissingMessage(expected[k].0, expected[k].1)
    decreases |expected|
  {
    if |expected| == 0 then []
    else
      var n := |expected| - 1;
      var (path, description) := expected[n];
      assert forall k :: 0 <= k < n ==> expected[..n][k] == expected[k];
      MissingDocs(expected[..n], present) + (if Missing(path, present) then [MissingMessage(path, description)] else [])
  }

  /** Whether an expected document, given with its description, is missing. */
  function MissingIn(present: string -> bool): ((string, string)) -> bool {
    (e: (string, string)) => Missing(e.0, present)
  }

  /** The loop reports the missing documents in the order `expected` lists them, each once:
      the i-th message is that of the i-th missing document. */
  lemma {:induction false} MissingDocsInOrder(expected: seq<(string, string)>, present: string -> bool)
    ensures var missing, kept := MissingDocs(expected, present), Filter(expected, MissingIn(present));
            && |missing| == |kept|
            && forall i :: 0 <= i < |missing| ==> missing[i] == MissingMessage(kept[i].0, kept[i].1)
    decreases |expected|
  {
    if |expected| > 0 {
      var n := |expected| - 1;
      var front, e := expected[..n], expected[n];
      MissingDocsInOrder(front, present);
      assert expected == front + [e];
      FilterSnoc(front, e, MissingIn(present));
    }
  }

  /** The loop over two expected documents: the first one's message, if missing, then the
      second one's. */
  lemma MissingDocsOfTwo(a: (string, string), b: (string, string), present: string -> bool)
    ensures MissingDocs([a, b], present) ==
              (if Missing(a.0, present) then [MissingMessage(a.0, a.1)] else [])
              + (if Missing(b.0, present) then [MissingMessage(b.0, b.1)] else [])
  {
    assert [a, b][..1] == [a];
    assert [a][..0] == [];
  }

  /** The paths of the documents, in listing order. */
  function Paths(docs: seq<Doc>): (paths: seq<string>)
    ensures |paths| == |docs| && forall k :: 0 <= k < |docs| ==> paths[k] == docs[k].path
  {
    seq(|docs|, k requires 0 <= k < |docs| => docs[k].path)
  }

  /** The paths of two listings in turn: the first listing's paths, then the second's. */
  lemma PathsInOrder(s: seq<Doc>, l: seq<Doc>)
    ensures var paths := Paths(s + l);
            && |paths| == |s| + |l|
            && (forall k :: 0 <= k < |s| ==> paths[k] == s[k].path)
            && (forall k :: 0 <= k < |l| ==> paths[|s| + k] == l[k].path)
  {
    var paths := Paths(s + l);
    forall k | 0 <= k < |l|
      ensures paths[|s| + k] == l[k].path
    {
      assert (s + l)[|s| + k] == l[k];
    }
  }

  /** The stale-marker records of the documents, file by file. */
  function MarkersOf(docs: seq<Doc>): seq<MarkerHit> {
    Flatten(Map(docs, FileMarkers))
  }

  /** The recommendations of `check_drift`. */
  function DriftRecommendations(stale: seq<MarkerHit>, missing: seq<string>): (recs: seq<string>)
    ensures ReviewAdvice in recs <==> stale != []
    ensures CreateAdvice in recs <==> missing != []
    ensures stale != [] ==> recs[0] == ReviewAdvice
    ensures |recs| == (if stale != [] then 1 else 0) + (if missing != [] then 1 else 0)
    ensures forall a :: a in recs ==> a == ReviewAdvice || a == CreateAdvice
  {
    assert ReviewAdvice != CreateAdvice by {
      assert |ReviewAdvice| != |CreateAdvice|;
    }
    (if stale != [] then [ReviewAdvice] else []) + (if missing != [] then [CreateAdvice] else [])
  }

  /** `check_drift`: `specs` and `legacy` are the `*.md` files of `.ultra/specs` and `docs`, or
      `None` when the directory does not exist; `present` says which relative paths exist. */
  function CheckDrift(specs: Option<seq<Doc>>, legacy: Option<seq<Doc>>, present: string -> bool): (r: DriftReport)
    // the documents found: first `.ultra/specs`, then `docs`, each in listing order
    ensures var s, l := specs.GetOr([]), legacy.GetOr([]);
            && |r.specsFound| == |s| + |l|
            && (forall k :: 0 <= k < |s| ==> r.specsFound[k] == s[k].path)
            && (forall k :: 0 <= k < |l| ==> r.specsFound[|s| + k] == l[k].path)
    // the marker records: those of each document in turn, all from readable documents
    ensures var docs := specs.GetOr([]) + legacy.GetOr([]);
            && r.staleMarkers == MarkersOf(docs)
            && (r.staleMarkers != [] <==> exists k :: 0 <= k < |docs| && HasStaleMarker(docs[k]))
            && (forall h :: h in r.staleMarkers ==> exists d :: d in docs && d.content.Some? && h.file == d.path)
    // a document is missing iff neither it nor any of its legacy candidates exists
    ensures MissingMessage(SpecsDir + ProductDoc, "Product requirements") in r.missingDocs
            <==> !present(SpecsDir + ProductDoc) && !present(DocsDir + ProductDoc) && !present(SpecsDir + "prd.md")
    ensures MissingMessage(SpecsDir + ArchitectureDoc, "Architecture decisions") in r.missingDocs
            <==> !present(SpecsDir + ArchitectureDoc) && !present(DocsDir + ArchitectureDoc) && !present(SpecsDir + "tech.md")
    ensures forall m :: m in r.missingDocs ==>
              m == MissingMessage(SpecsDir + ProductDoc, "Product requirements")
              || m == MissingMessage(SpecsDir + ArchitectureDoc, "Architecture decisions")
    ensures r.warnings == []
    // review the markers iff a readable document holds one; create documents iff one is missing
    ensures var docs := specs.GetOr([]) + legacy.GetOr([]);
            && (ReviewAdvice in r.recommendations <==> exists k :: 0 <= k < |docs| && HasStaleMarker(docs[k]))
            && (CreateAdvice in r.recommendations <==>
                  exists k :: 0 <= k < |ExpectedDocs| && Missing(ExpectedDocs[k].0, present))
            && (forall a :: a in r.recommendations ==> a == ReviewAdvice || a == CreateAdvice)
            && (ReviewAdvice in r.recommendations ==> r.recommendations[0] == ReviewAdvice)
    // the missing list is the expected documents' loop, and the advice is given once per kind
    ensures r.missingDocs == ExpectedDocsMissing(present)
    ensures r.recommendations == DriftRecommendations(r.staleMarkers, r.missingDocs)
    ensures |r.recommendations| == (if r.staleMarkers != [] then 1 else 0) + (if r.missingDocs != [] then 1 else 0)
  {
    var s, l := specs.GetOr([]), legacy.GetOr([]);
    var missing := ExpectedDocsMissing(present);
    var stale := StaleMarkers(s + l);
    DriftReport(FoundPaths(s, l), missing, stale, [], DriftRecommendations(stale, missing))
  }

  /** The paths of the documents found, the first listing's before the second's. */
  function FoundPaths(s: seq<Doc>, l: seq<Doc>): (paths: seq<string>)
    ensures |paths| == |s| + |l|
    ensures forall k :: 0 <= k < |s| ==> paths[k] == s[k].path
    ensures forall k :: 0 <= k < |l| ==> paths[|s| + k] == l[k].path
  {
    PathsInOrder(s, l);
    Paths(s + l)
  }

  /** The stale-marker records of the documents: there are some iff a readable document holds a
      marker, and each names a readable document. */
  function StaleMarkers(docs: seq<Doc>): (stale: seq<MarkerHit>)
    ensures stale != [] <==> exists k :: 0 <= k < |docs| && HasStaleMarker(docs[k])
    ensures forall h :: h in stale ==> exists d :: d in docs && d.content.Some? && h.file == d.path
  {
    MarkersOfEmpty(docs);
    MarkersFromReadableDocs(docs);
    MarkersOf(docs)
  }

  /** The stale-marker records of a concatenation: the first part's records come first. */
  lemma MarkersOfAppend(a: seq<Doc>, b: seq<Doc>)
    ensures MarkersOf(a + b) == MarkersOf(a) + MarkersOf(b)
  {
    assert Map(a + b, FileMarkers) == Map(a, FileMarkers) + Map(b, FileMarkers);
    FlattenAppend(Map(a, FileMarkers), Map(b, FileMarkers));
  }

  /** A file that cannot be read adds nothing to the stale markers. */
  lemma UnreadableAddsNoMarkers(before: seq<Doc>, path: string, after: seq<Doc>)
    ensures MarkersOf(before + [Doc(path, None)] + after) == MarkersOf(before + after)
  {
    MarkersOfAppend(before + [Doc(path, None)], after);
    MarkersOfAppend(before, [Doc(path, None)]);
    MarkersOfAppend(before, after);
    UnreadableAlone(path);
  }

  lemma UnreadableAlone(path: string)
    ensures MarkersOf([Doc(path, None)]) == []
  {
    var none: seq<seq<MarkerHit>> := [[]];
    assert Map([Doc(path, None)], FileMarkers) == none;
    assert none[..0] == [];
  }

  /** Every stale-marker record comes from a readable document and names it. */
  lemma {:induction false} MarkersFromReadableDocs(docs: seq<Doc>)
    ensures forall h :: h in MarkersOf(docs) ==> exists d :: d in docs && d.content.Some? && h.file == d.path
    decreases |docs|
  {
    if |docs| > 0 {
      var n := |docs| - 1;
      MarkersFromReadableDocs(docs[..n]);
      assert docs == docs[..n] + [docs[n]];
      MarkersOfAppend(docs[..n], [docs[n]]);
      assert Map([docs[n]], FileMarkers) == [FileMarkers(docs[n])];
      assert Flatten([FileMarkers(docs[n])]) == FileMarkers(docs[n]) by {
        assert [FileMarkers(docs[n])][..0] == [];
      }
      assert docs[n] in docs;
    }
  }

  /** The expected product document is reported missing iff it exists nowhere: not at its own
      path, not in `docs/`, not as `prd.md`. */
  lemma ProductMissingIff(present: string -> bool)
    ensures MissingMessage(SpecsDir + ProductDoc, "Product requirements") in MissingDocs(ExpectedDocs, present)
            <==> !present(SpecsDir + ProductDoc) && !present(DocsDir + ProductDoc) && !present(SpecsDir + "prd.md")
  {
    ProductCandidates();
    var m := MissingMessage(SpecsDir + ProductDoc, "Product requirements");
    var other := MissingMessage(SpecsDir + ArchitectureDoc, "Architecture decisions");
    assert m != other by {
      assert |m| != |other|;
    }
  }

  /** The expected architecture document is reported missing iff it exists nowhere: not at its
      own path, not in `docs/`, not as `tech.md`. */
  lemma ArchitectureMissingIff(present: string -> bool)
    ensures MissingMessage(SpecsDir + ArchitectureDoc, "Architecture decisions") in MissingDocs(ExpectedDocs, present)
            <==> !present(SpecsDir + ArchitectureDoc) && !present(DocsDir + ArchitectureDoc) && !present(SpecsDir + "tech.md")
  {
    ArchitectureCandidates();
    var m := MissingMessage(SpecsDir + ArchitectureDoc, "Architecture decisions");
    var other := MissingMessage(SpecsDir + ProductDoc, "Product requirements");
    assert m != other by {
      assert |m| != |other|;
    }
  }

  /** The missing-documents loop over the two expected documents: each one's message is
      reported iff neither it nor its legacy candidates exist, and nothing else is. */
  function ExpectedDocsMissing(present: string -> bool): (missing: seq<string>)
    ensures var product := MissingMessage(SpecsDir + ProductDoc, "Product requirements");
            var architecture := MissingMessage(SpecsDir + ArchitectureDoc, "Architecture decisions");
            && (product in missing <==>
                  !present(SpecsDir + ProductDoc) && !present(DocsDir + ProductDoc) && !present(SpecsDir + "prd.md"))
            && (architecture in missing <==>
                  !present(SpecsDir + ArchitectureDoc) && !present(DocsDir + ArchitectureDoc) && !present(SpecsDir + "tech.md"))
            && (forall m :: m in missing ==> m == product || m == architecture)
            && (missing != [] <==> exists k :: 0 <= k < |ExpectedDocs| && Missing(ExpectedDocs[k].0, present))
  {
    var missing := MissingDocs(ExpectedDocs, present);
    ProductMissingIff(present);
    ArchitectureMissingIff(present);
    assert missing != [] ==> missing[0] in missing;
    missing
  }

  /** The missing list in full: the product document's message, if it exists nowhere, then the
      architecture document's, if it exists nowhere, and nothing else, each at most once. */
  lemma ExpectedDocsMissingInOrder(present: string -> bool)
    ensures ExpectedDocsMissing(present) ==
              (if !present(SpecsDir + ProductDoc) && !present(DocsDir + ProductDoc) && !present(SpecsDir + "prd.md")
               then [MissingMessage(SpecsDir + ProductDoc, "Product requirements")] else [])
              + (if !present(SpecsDir + ArchitectureDoc) && !present(DocsDir + ArchitectureDoc) && !present(SpecsDir + "tech.md")
                 then [MissingMessage(SpecsDir + ArchitectureDoc, "Architecture decisions")] else [])
  {
    MissingDocsOfTwo(ExpectedDocs[0], ExpectedDocs[1], present);
    ProductCandidates();
    ArchitectureCandidates();
  }

  /** None of `toks` occurs in `content`. */
  ghost predicate NoneFound(content: string, toks: seq<string>) {
    forall k :: 0 <= k < |toks| ==> !Found(content, toks[k])
  }

  lemma NoneFoundSnoc(content: string, toks: seq<string>)
    requires |toks| > 0
    ensures var n := |toks| - 1;
            NoneFound(content, toks) <==> NoneFound(content, toks[..n]) && !Found(content, toks[n])
  {
  }

  /** The records of one more marker: that marker's record, if any, comes last. */
  lemma RecordsForSnoc(file: string, content: string, toks: seq<string>)
    requires |toks| > 0 && forall k :: 0 <= k < |toks| ==> |toks[k]| > 0
    ensures var n := |toks| - 1;
            && RecordsFor(file, content, toks) == RecordsFor(file, content, toks[..n]) + MarkerRecord(file, content, toks[n])
            && (MarkerRecord(file, content, toks[n]) == [] <==> !Found(content, toks[n]))
  {
  }

  /** The positions in `toks` of the tokens that occur in `content`, in increasing order. */
  ghost function FoundIndices(content: string, toks: seq<string>): (ix: seq<nat>)
    ensures forall i :: 0 <= i < |ix| ==> ix[i] < |toks| && Found(content, toks[ix[i]])
    ensures forall i, j :: 0 <= i < j < |ix| ==> ix[i] < ix[j]
    ensures forall k :: 0 <= k < |toks| && Found(content, toks[k]) ==> k in ix
    decreases |toks|
  {
    if |toks| == 0 then []
    else
      var n := |toks| - 1;
      assert forall k :: 0 <= k < n ==> toks[..n][k] == toks[k];
      FoundIndices(content, toks[..n]) + (if Found(content, toks[n]) then [n] else [])
  }

  /** The records come in the order of the tokens: the i-th record is the record of the i-th
      token that occurs. */
  lemma {:induction false} RecordsInMarkerOrder(file: string, content: string, toks: seq<string>)
    requires forall k :: 0 <= k < |toks| ==> |toks[k]| > 0
    ensures var r, ix := RecordsFor(file, content, toks), FoundIndices(content, toks);
            |r| == |ix| && forall i :: 0 <= i < |r| ==> [r[i]] == MarkerRecord(file, content, toks[ix[i]])
    decreases |toks|
  {
    if |toks| > 0 {
      var n := |toks| - 1;
      var front := toks[..n];
      RecordsInMarkerOrder(file, content, front);
      var r0, ix0 := RecordsFor(file, content, front), FoundIndices(content, front);
      var last := MarkerRecord(file, content, toks[n]);
      var r, ix := RecordsFor(file, content, toks), FoundIndices(content, toks);
      assert r == r0 + last;
      assert ix == ix0 + (if Found(content, toks[n]) then [n] else []);
      forall i | 0 <= i < |r|
        ensures [r[i]] == MarkerRecord(file, content, toks[ix[i]])
      {
        if i < |r0| {
          assert r[i] == r0[i] && ix[i] == ix0[i];
          assert front[ix0[i]] == toks[ix0[i]];
        } else {
          assert r[i] == last[0] && ix[i] == n;
        }
      }
    }
  }

  /** A readable file yields no record iff none of the markers occurs in it. */
  lemma {:induction false} RecordsForEmpty(file: string, content: string, toks: seq<string>)
    requires forall k :: 0 <= k < |toks| ==> |toks[k]| > 0
    ensures RecordsFor(file, content, toks) == [] <==> NoneFound(content, toks)
    decreases |toks|
  {
    if |toks| > 0 {
      var n := |toks| - 1;
      var front := toks[..n];
      RecordsForSnoc(file, content, toks);
      RecordsForEmpty(file, content, front);
      NoneFoundSnoc(content, toks);
    }
  }

  /** Some marker of `Markers` occurs in the document, which can be read. */
  ghost predicate HasStaleMarker(d: Doc) {
    d.content.Some? && exists k :: 0 <= k < |Markers| && Found(d.content.value, Markers[k])
  }

  /** There are stale-marker records iff some readable document holds one of the markers. */
  lemma MarkersOfEmpty(docs: seq<Doc>)
    ensures MarkersOf(docs) != [] <==> exists k :: 0 <= k < |docs| && HasStaleMarker(docs[k])
  {
    FlattenEmpty(Map(docs, FileMarkers));
    MarkersLengthsDiffer();
    forall k | 0 <= k < |docs|
      ensures FileMarkers(docs[k]) != [] <==> HasStaleMarker(docs[k])
    {
      if docs[k].content.Some? {
        RecordsForEmpty(docs[k].path, docs[k].content.value, Markers);
        assert NoneFound(docs[k].content.value, Markers) <==> !HasStaleMarker(docs[k]);
      }
    }
  }
}
