/** `_detect_conflicts` of `git_safety_check.py`: files changed on more than one feature branch. */
module GitConflicts {
  import opened Seqs
  import opened GitBranches

  /** One `(file, branch)` pair met by the nested loop over branches and their files. */
  datatype Touch = Touch(file: string, branch: string)

  datatype Severity = Medium | High

  /** One reported conflict: the file, the branches that touch it, and how many they are. */
  datatype Conflict = Conflict(file: string, branches: seq<string>, severity: Severity)

  /** The pairs of one branch, in the order of its file list. */
  function TouchesOf(b: BranchInfo): (ts: seq<Touch>)
    ensures |ts| == |b.files|
    ensures forall k :: 0 <= k < |ts| ==> ts[k] == Touch(b.files[k], b.name)
  {
    seq(|b.files|, k requires 0 <= k < |b.files| => Touch(b.files[k], b.name))
  }

  /** The pairs of all branches, branch by branch. */
  function Touches(bs: seq<BranchInfo>): seq<Touch>
    decreases |bs|
  {
    if |bs| == 0 then [] else Touches(bs[..|bs| - 1]) + TouchesOf(bs[|bs| - 1])
  }

  /** The files of the pairs, in loop order. */
  function FilesOf(ts: seq<Touch>): (fs: seq<string>)
    ensures |fs| == |ts|
    ensures forall k :: 0 <= k < |ts| ==> fs[k] == ts[k].file
    decreases |ts|
  {
    if |ts| == 0 then [] else FilesOf(ts[..|ts| - 1]) + [ts[|ts| - 1].file]
  }

  /** The keys of `file_to_branches` in insertion order: each file once, first seen first. */
  function FileOrder(ts: seq<Touch>): seq<string> {
    Dedupe(FilesOf(ts))
  }

  /** `file_to_branches[f]`: one branch name per pair with file `f`, in loop order. */
  function BranchesTouching(ts: seq<Touch>, f: string): (names: seq<string>)
    ensures |names| <= |ts|
    ensures names == [] <==> f !in FilesOf(ts)
    decreases |ts|
  {
    if |ts| == 0 then []
    else
      var t := ts[|ts| - 1];
      BranchesTouching(ts[..|ts| - 1], f) + (if t.file == f then [t.branch] else [])
  }

  /** Reference: the names of the branches whose file list contains `f`, in input order. */
  function NamesWith(bs: seq<BranchInfo>, f: string): seq<string>
    decreases |bs|
  {
    if |bs| == 0 then []
    else
      var b := bs[|bs| - 1];
      NamesWith(bs[..|bs| - 1], f) + (if f in b.files then [b.name] else [])
  }

  /** The report for file `f` touched by `names`, if more than one branch touches it. */
  function ConflictFor(f: string, names: seq<string>): (c: seq<Conflict>)
    ensures |c| <= 1
    ensures c != [] <==> |names| > 1
    ensures c != [] ==> c[0].file == f && c[0].branches == names
    ensures c != [] ==> (c[0].severity == High <==> |names| > 2)
  {
    if |names| > 1 then [Conflict(f, names, if |names| > 2 then High else Medium)] else []
  }

  /** The second loop of `_detect_conflicts`, over the keys `keys`. */
  function ConflictsOver(keys: seq<string>, ts: seq<Touch>): (cs: seq<Conflict>)
    ensures |cs| <= |keys|
    ensures forall k :: 0 <= k < |cs| ==> cs[k].file in keys
    decreases |keys|
  {
    if |keys| == 0 then []
    else
      var f := keys[|keys| - 1];
      ConflictsOver(keys[..|keys| - 1], ts) + ConflictFor(f, BranchesTouching(ts, f))
  }

  /** A conflict is reported for a key iff the key is touched by more than one pair. */
  lemma {:induction false} ConflictsOverMembers(keys: seq<string>, ts: seq<Touch>, c: Conflict)
    ensures c in ConflictsOver(keys, ts) <==>
              c.file in keys && ConflictFor(c.file, BranchesTouching(ts, c.file)) == [c]
    decreases |keys|
  {
    if |keys| > 0 {
      var f := keys[|keys| - 1];
      ConflictsOverMembers(keys[..|keys| - 1], ts, c);
      assert keys == keys[..|keys| - 1] + [f];
    }
  }

  /** `_detect_conflicts(branches)`: one report for each file that more than one pair touches,
      naming a branch once per pair; high severity from three names on. */
  function Conflicts(bs: seq<BranchInfo>): (cs: seq<Conflict>)
    ensures forall c :: c in cs ==>
              && ListedBy(bs, c.file)
              && c.branches == BranchesTouching(Touches(bs), c.file)
              && |c.branches| > 1
              && (c.severity == High <==> |c.branches| > 2)
    ensures forall f :: |BranchesTouching(Touches(bs), f)| > 1 ==> exists c :: c in cs && c.file == f
  {
    ConflictsShape(bs);
    ConflictsOver(FileOrder(Touches(bs)), Touches(bs))
  }

  /** The contract of `Conflicts`, from the membership rule of the second loop. */
  lemma ConflictsShape(bs: seq<BranchInfo>)
    ensures var ts := Touches(bs);
            forall c :: c in ConflictsOver(FileOrder(ts), ts) ==>
              && ListedBy(bs, c.file)
              && c.branches == BranchesTouching(ts, c.file)
              && |c.branches| > 1
              && (c.severity == High <==> |c.branches| > 2)
    ensures var ts := Touches(bs);
            forall f :: |BranchesTouching(ts, f)| > 1 ==> exists c :: c in ConflictsOver(FileOrder(ts), ts) && c.file == f
  {
    var ts := Touches(bs);
    var keys := FileOrder(ts);
    forall c | c in ConflictsOver(keys, ts)
      ensures ListedBy(bs, c.file) && c.branches == BranchesTouching(ts, c.file) && |c.branches| > 1
              && (c.severity == High <==> |c.branches| > 2)
    {
      ConflictsOverMembers(keys, ts, c);
      TouchedFiles(bs, c.file);
    }
    forall f | |BranchesTouching(ts, f)| > 1
      ensures exists c :: c in ConflictsOver(keys, ts) && c.file == f
    {
      var c := ConflictFor(f, BranchesTouching(ts, f))[0];
      ConflictsOverMembers(keys, ts, c);
    }
  }

  /** The pairs of one more pair. */
  lemma BranchesTouchingSnoc(ts: seq<Touch>, t: Touch, f: string)
    ensures BranchesTouching(ts + [t], f) == BranchesTouching(ts, f) + (if t.file == f then [t.branch] else [])
    ensures FilesOf(ts + [t]) == FilesOf(ts) + [t.file]
  {
    assert (ts + [t])[..|ts|] == ts;
  }

  /** `file_to_branches` of a concatenation: the names from the first part come first. */
  lemma {:induction false} BranchesTouchingAppend(a: seq<Touch>, b: seq<Touch>, f: string)
    ensures BranchesTouching(a + b, f) == BranchesTouching(a, f) + BranchesTouching(b, f)
    decreases |b|
  {
    if |b| == 0 {
      assert a + b == a;
    } else {
      var b', t := b[..|b| - 1], b[|b| - 1];
      FrontAndLast(b);
      AppendAssoc(a, b', [t]);
      BranchesTouchingAppend(a, b', f);
      BranchesTouchingSnoc(a + b', t, f);
      BranchesTouchingSnoc(b', t, f);
      AppendAssoc(BranchesTouching(a, f), BranchesTouching(b', f), if t.file == f then [t.branch] else []);
    }
  }

  /** A branch that lists each file once contributes its name once for each of its files. */
  lemma {:induction false} BranchesTouchingOne(b: BranchInfo, n: nat, f: string)
    requires n <= |b.files| && Distinct(b.files)
    ensures BranchesTouching(TouchesOf(b)[..n], f) == if f in b.files[..n] then [b.name] else []
    decreases n
  {
    if n > 0 {
      var ts := TouchesOf(b)[..n];
      assert ts[..n - 1] == TouchesOf(b)[..n - 1];
      assert b.files[..n] == b.files[..n - 1] + [b.files[n - 1]];
      BranchesTouchingOne(b, n - 1, f);
      if b.files[n - 1] == f {
        assert f !in b.files[..n - 1];
      }
    }
  }

  /** When no branch lists a file twice, `file_to_branches[f]` is exactly the branches whose
      file list contains `f`, in input order. */
  lemma {:induction false} BranchesTouchingIsNamesWith(bs: seq<BranchInfo>, f: string)
    requires forall k :: 0 <= k < |bs| ==> Distinct(bs[k].files)
    ensures BranchesTouching(Touches(bs), f) == NamesWith(bs, f)
    decreases |bs|
  {
    if |bs| > 0 {
      var front, b := bs[..|bs| - 1], bs[|bs| - 1];
      BranchesTouchingIsNamesWith(front, f);
      BranchesTouchingAppend(Touches(front), TouchesOf(b), f);
      BranchesTouchingOwn(b, f);
    }
  }

  /** A branch that lists each file once touches `f` once if it lists `f`, and otherwise not. */
  lemma BranchesTouchingOwn(b: BranchInfo, f: string)
    requires Distinct(b.files)
    ensures BranchesTouching(TouchesOf(b), f) == if f in b.files then [b.name] else []
  {
    BranchesTouchingOne(b, |b.files|, f);
    TakeAll(TouchesOf(b));
    TakeAll(b.files);
  }

  /** Some branch of `bs` lists file `f`. */
  predicate ListedBy(bs: seq<BranchInfo>, f: string) {
    exists k :: 0 <= k < |bs| && f in bs[k].files
  }

  lemma ListedBySnoc(bs: seq<BranchInfo>, f: string)
    requires |bs| > 0
    ensures ListedBy(bs, f) <==> ListedBy(bs[..|bs| - 1], f) || f in bs[|bs| - 1].files
  {
    var n := |bs| - 1;
    if ListedBy(bs, f) && f !in bs[n].files {
      var k :| 0 <= k < |bs| && f in bs[k].files;
      assert bs[..n][k] == bs[k];
    }
    if ListedBy(bs[..n], f) {
      var k :| 0 <= k < n && f in bs[..n][k].files;
      assert bs[k] == bs[..n][k];
    }
  }

  /** The files of the pairs are the files of the branches. */
  lemma {:induction false} TouchedFiles(bs: seq<BranchInfo>, f: string)
    ensures f in FilesOf(Touches(bs)) <==> ListedBy(bs, f)
    decreases |bs|
  {
    if |bs| > 0 {
      var n := |bs| - 1;
      var a := Touches(bs[..n]);
      var t := TouchesOf(bs[n]);
      TouchedFiles(bs[..n], f);
      assert Touches(bs) == a + t;
      FilesOfAppend(a, t);
      assert FilesOf(t) == bs[n].files;
      assert FilesOf(Touches(bs)) == FilesOf(a) + bs[n].files;
      ListedBySnoc(bs, f);
    }
  }

  lemma {:induction false} FilesOfAppend(a: seq<Touch>, b: seq<Touch>)
    ensures FilesOf(a + b) == FilesOf(a) + FilesOf(b)
    decreases |b|
  {
    if |b| > 0 {
      var b' := b[..|b| - 1];
      assert a + b == (a + b') + [b[|b| - 1]];
      assert b == b' + [b[|b| - 1]];
      FilesOfAppend(a, b');
      BranchesTouchingSnoc(a + b', b[|b| - 1], "");
      BranchesTouchingSnoc(b', b[|b| - 1], "");
    } else {
      assert a + b == a;
    }
  }

  /** A file is reported iff more than one branch lists it; the branches come in input order,
      and the severity is high iff more than two branches list it. */
  lemma ConflictIffShared(bs: seq<BranchInfo>, f: string)
    requires forall k :: 0 <= k < |bs| ==> Distinct(bs[k].files)
    ensures (exists c :: c in Conflicts(bs) && c.file == f) <==> |NamesWith(bs, f)| > 1
    ensures forall c :: c in Conflicts(bs) && c.file == f ==>
              c.branches == NamesWith(bs, f) && (c.severity == High <==> |NamesWith(bs, f)| > 2)
  {
    var ts := Touches(bs);
    BranchesTouchingIsNamesWith(bs, f);
    forall c | c in Conflicts(bs) && c.file == f
      ensures ConflictFor(f, NamesWith(bs, f)) == [c]
    {
      ConflictsOverMembers(FileOrder(ts), ts, c);
    }
    if |NamesWith(bs, f)| > 1 {
      assert f in FileOrder(ts);
      var c := ConflictFor(f, BranchesTouching(ts, f))[0];
      ConflictsOverMembers(FileOrder(ts), ts, c);
      assert c in Conflicts(bs);
    }
  }

  /** The files of `cs` are keys, in the order of the keys. */
  predicate InKeyOrder(cs: seq<Conflict>, keys: seq<string>) {
    && (forall k :: 0 <= k < |cs| ==> cs[k].file in keys)
    && forall i, j :: 0 <= i < j < |cs| ==> FirstIndex(keys, cs[i].file) < FirstIndex(keys, cs[j].file)
  }

  /** The second loop reports files in the order of the keys. */
  lemma {:induction false} ConflictsOverOrder(keys: seq<string>, ts: seq<Touch>)
    requires Distinct(keys)
    ensures InKeyOrder(ConflictsOver(keys, ts), keys)
    decreases |keys|
  {
    if |keys| > 0 {
      var n := |keys| - 1;
      var ks := keys[..n];
      var cs := ConflictsOver(keys, ts);
      var prev := ConflictsOver(ks, ts);
      var last := ConflictFor(keys[n], BranchesTouching(ts, keys[n]));
      assert cs == prev + last;
      assert Distinct(ks);
      ConflictsOverOrder(ks, ts);
      assert InKeyOrder(prev, ks);
      forall i, j | 0 <= i < j < |cs|
        ensures FirstIndex(keys, cs[i].file) < FirstIndex(keys, cs[j].file)
      {
        assert cs[i] == prev[i] && prev[i] in prev;
        FirstIndexPrefix(keys, n, prev[i].file);
        if j < |prev| {
          assert cs[j] == prev[j] && prev[j] in prev;
          FirstIndexPrefix(keys, n, prev[j].file);
          assert FirstIndex(ks, prev[i].file) < FirstIndex(ks, prev[j].file);
        } else {
          assert cs[j].file == keys[n];
          assert FirstIndex(keys, keys[n]) == n;
          assert FirstIndex(ks, prev[i].file) < n;
        }
        assert FirstIndex(keys, cs[i].file) < FirstIndex(keys, cs[j].file);
      }
    }
  }

  /** Conflicts are reported in the order in which their files are first met, and so each file
      at most once. */
  lemma ConflictsInFirstSeenOrder(bs: seq<BranchInfo>)
    ensures var cs := Conflicts(bs);
            var fs := FilesOf(Touches(bs));
            forall i, j :: 0 <= i < j < |cs| ==>
              cs[i].file in fs && cs[j].file in fs && FirstIndex(fs, cs[i].file) < FirstIndex(fs, cs[j].file)
  {
    var fs := FilesOf(Touches(bs));
    var keys := FileOrder(Touches(bs));
    var cs := Conflicts(bs);
    DedupeDistinct(fs);
    DedupeFirstOccurrenceOrder(fs);
    ConflictsOverOrder(keys, Touches(bs));
    assert InKeyOrder(cs, keys);
    forall i, j | 0 <= i < j < |cs|
      ensures cs[i].file in fs && cs[j].file in fs && FirstIndex(fs, cs[i].file) < FirstIndex(fs, cs[j].file)
    {
      var p := FirstIndex(keys, cs[i].file);
      var q := FirstIndex(keys, cs[j].file);
      assert p < q;
      assert keys[p] == cs[i].file && keys[q] == cs[j].file;
      assert keys[p] in fs && keys[q] in fs;
    }
  }

  /** `file_to_branches` and its keys in insertion order after the pairs `done`. */
  ghost predicate Tracks(fileToBranches: map<string, seq<string>>, keys: seq<string>, done: seq<Touch>) {
    && keys == FileOrder(done)
    && (forall f :: f in fileToBranches <==> f in keys)
    && (forall f :: f in fileToBranches ==> fileToBranches[f] == BranchesTouching(done, f))
  }

  /** The body of the nested loop: `file_to_branches[f].append(branch["name"])`, creating the
      entry first when `f` is new. */
  method Record(fileToBranches: map<string, seq<string>>, keys: seq<string>, ghost done: seq<Touch>, t: Touch)
    returns (fileToBranches': map<string, seq<string>>, keys': seq<string>)
    requires Tracks(fileToBranches, keys, done)
    ensures Tracks(fileToBranches', keys', done + [t])
  {
    var f := t.file;
    assert FileOrder(done + [t]) == if f in keys then keys else keys + [f] by {
      BranchesTouchingSnoc(done, t, f);
      DedupeSnoc(FilesOf(done), f);
    }
    fileToBranches' := fileToBranches;
    keys' := keys;
    if f !in fileToBranches' {
      fileToBranches' := fileToBranches'[f := []];
      keys' := keys' + [f];
    }
    fileToBranches' := fileToBranches'[f := fileToBranches'[f] + [t.branch]];
    forall g | g in fileToBranches'
      ensures fileToBranches'[g] == BranchesTouching(done + [t], g)
    {
      BranchesTouchingSnoc(done, t, g);
    }
  }

  lemma TouchesOfSnoc(b: BranchInfo, j: nat)
    requires j < |b.files|
    ensures TouchesOf(b)[..j + 1] == TouchesOf(b)[..j] + [Touch(b.files[j], b.name)]
  {
  }

  lemma TouchesSnoc(bs: seq<BranchInfo>, i: nat)
    requires i < |bs|
    ensures Touches(bs[..i + 1]) == Touches(bs[..i]) + TouchesOf(bs[i])
  {
    assert bs[..i + 1][..i] == bs[..i];
  }

  lemma ConflictsOverSnoc(keys: seq<string>, k: nat, ts: seq<Touch>)
    requires k < |keys|
    ensures ConflictsOver(keys[..k + 1], ts) == ConflictsOver(keys[..k], ts) + ConflictFor(keys[k], BranchesTouching(ts, keys[k]))
  {
    assert keys[..k + 1][..k] == keys[..k];
  }

  /** The inner loop of `_detect_conflicts`: record every file of branch `b`. */
  method RecordBranch(fileToBranches: map<string, seq<string>>, keys: seq<string>, ghost done: seq<Touch>, b: BranchInfo)
    returns (fileToBranches': map<string, seq<string>>, keys': seq<string>)
    requires Tracks(fileToBranches, keys, done)
    ensures Tracks(fileToBranches', keys', done + TouchesOf(b))
  {
    fileToBranches', keys' := fileToBranches, keys;
    ghost var cur := done;
    var j := 0;
    while j < |b.files|
      invariant 0 <= j <= |b.files|
      invariant cur == done + TouchesOf(b)[..j]
      invariant Tracks(fileToBranches', keys', cur)
    {
      var t := Touch(b.files[j], b.name);
      fileToBranches', keys' := Record(fileToBranches', keys', cur, t);
      TouchesOfSnoc(b, j);
      assert done + TouchesOf(b)[..j + 1] == (done + TouchesOf(b)[..j]) + [t];
      cur := cur + [t];
      j := j + 1;
    }
    assert TouchesOf(b)[..j] == TouchesOf(b);
  }

  /** Every key has an entry: the branches of the pairs with that file. */
  ghost predicate KeysTracked(fileToBranches: map<string, seq<string>>, keys: seq<string>, done: seq<Touch>) {
    forall k :: 0 <= k < |keys| ==> keys[k] in fileToBranches && fileToBranches[keys[k]] == BranchesTouching(done, keys[k])
  }

  lemma TrackedKeys(fileToBranches: map<string, seq<string>>, keys: seq<string>, done: seq<Touch>)
    requires Tracks(fileToBranches, keys, done)
    ensures KeysTracked(fileToBranches, keys, done)
  {
    forall k | 0 <= k < |keys|
      ensures keys[k] in fileToBranches && fileToBranches[keys[k]] == BranchesTouching(done, keys[k])
    {
      assert keys[k] in keys;
    }
  }

  /** One step of the second loop: the entry of key `k` extends the conflicts of the keys before it. */
  lemma KeyStep(fileToBranches: map<string, seq<string>>, keys: seq<string>, done: seq<Touch>, k: nat)
    requires KeysTracked(fileToBranches, keys, done) && k < |keys|
    ensures keys[k] in fileToBranches
    ensures ConflictsOver(keys[..k + 1], done) == ConflictsOver(keys[..k], done) + ConflictFor(keys[k], fileToBranches[keys[k]])
  {
    ConflictsOverSnoc(keys, k, done);
  }

  /** The second loop of `_detect_conflicts`: the keys in insertion order, each kept when more
      than one branch touches its file. */
  method ConflictsOfKeys(fileToBranches: map<string, seq<string>>, keys: seq<string>, ghost done: seq<Touch>)
    returns (conflicts: seq<Conflict>)
    requires KeysTracked(fileToBranches, keys, done)
    ensures conflicts == ConflictsOver(keys, done)
  {
    conflicts := [];
    var k := 0;
    while k < |keys|
      invariant 0 <= k <= |keys|
      invariant conflicts == ConflictsOver(keys[..k], done)
    {
      KeyStep(fileToBranches, keys, done, k);
      conflicts := conflicts + ConflictFor(keys[k], fileToBranches[keys[k]]);
      k := k + 1;
    }
    assert keys[..k] == keys;
  }

  /** `_detect_conflicts`: the nested loop builds `file_to_branches` with its keys in insertion
      order, then the second loop keeps the files with more than one branch. */
  method DetectConflicts(bs: seq<BranchInfo>) returns (conflicts: seq<Conflict>)
    ensures conflicts == Conflicts(bs)
  {
    var fileToBranches: map<string, seq<string>> := map[];
    var keys: seq<string> := [];
    ghost var done: seq<Touch> := [];
    var i := 0;
    while i < |bs|
      invariant 0 <= i <= |bs|
      invariant done == Touches(bs[..i])
      invariant Tracks(fileToBranches, keys, done)
    {
      fileToBranches, keys := RecordBranch(fileToBranches, keys, done, bs[i]);
      TouchesSnoc(bs, i);
      done := done + TouchesOf(bs[i]);
      i := i + 1;
    }
    assert bs[..i] == bs;
    TrackedKeys(fileToBranches, keys, done);
    conflicts := ConflictsOfKeys(fileToBranches, keys, done);
  }
}
