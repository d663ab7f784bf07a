/** `find_chinese_chars.py`: the lines of a file that hold CJK unified ideographs, the walk that
    collects them over a directory tree, and what `main` shows of them. A file is given as the
    sequence of its lines as the text-mode reader yields them (each with its line ending), or
    `None` when it cannot be opened; the tree is given as nested entries. */
module CjkScan {
  import opened Wrappers
  import opened Seqs
  import opened Text

  // ----- `CHINESE_PATTERN` and `find_chinese_in_file` -----

  /** The character class `[一-鿿]`: the CJK Unified Ideographs block. */
  predicate IsCjk(c: char) {
    '\U{4E00}' <= c <= '\U{9FFF}'
  }

  /** `CHINESE_PATTERN.search(line)` finds something. */
  function HasCjk(line: string): (found: bool)
    ensures found <==> exists i :: 0 <= i < |line| && IsCjk(line[i])
    decreases |line|
  {
    if |line| == 0 then false
    else if IsCjk(line[0]) then true
    else
      assert forall i :: 1 <= i < |line| ==> line[i] == line[1..][i - 1];
      HasCjk(line[1..])
  }

  /** A reported line: its 1-based number and its text without trailing whitespace. */
  datatype LineMatch = LineMatch(number: nat, text: string)

  /** The reported lines of a file, in reading order (`enumerate(f, start=1)`). */
  function MatchLines(lines: seq<string>): (ms: seq<LineMatch>)
    ensures |ms| <= |lines|
    decreases |lines|
  {
    if |lines| == 0 then []
    else
      var n := |lines| - 1;
      MatchLines(lines[..n]) + (if HasCjk(lines[n]) then [LineMatch(n + 1, RStrip(lines[n]))] else [])
  }

  /** `m` reports a line of `lines` that holds an ideograph, by its 1-based number and with its
      trailing whitespace removed. */
  ghost predicate ReportsLine(lines: seq<string>, m: LineMatch) {
    1 <= m.number <= |lines| && HasCjk(lines[m.number - 1]) && m.text == RStrip(lines[m.number - 1])
  }

  /** The line numbers strictly increase. */
  predicate Increasing(ms: seq<LineMatch>) {
    forall i, j :: 0 <= i < j < |ms| ==> ms[i].number < ms[j].number
  }

  /** Every reported line is a line that holds an ideograph, and they come in reading order. */
  lemma {:induction false} MatchLinesSound(lines: seq<string>)
    ensures forall k :: 0 <= k < |MatchLines(lines)| ==> ReportsLine(lines, MatchLines(lines)[k])
    ensures Increasing(MatchLines(lines))
    ensures forall k :: 0 <= k < |MatchLines(lines)| ==> MatchLines(lines)[k].number <= |lines|
    decreases |lines|
  {
    if |lines| > 0 {
      var n := |lines| - 1;
      var front := MatchLines(lines[..n]);
      var ms := MatchLines(lines);
      assert ms == front + (if HasCjk(lines[n]) then [LineMatch(n + 1, RStrip(lines[n]))] else []);
      MatchLinesSound(lines[..n]);
      forall k | 0 <= k < |ms|
        ensures ReportsLine(lines, ms[k])
      {
        if k < |front| {
          assert ReportsLine(lines[..n], front[k]);
          assert lines[..n][front[k].number - 1] == lines[front[k].number - 1];
        }
      }
    }
  }

  /** Every line that holds an ideograph is reported, under its own number. */
  lemma {:induction false} MatchLinesComplete(lines: seq<string>, i: nat)
    requires i < |lines| && HasCjk(lines[i])
    ensures exists k :: 0 <= k < |MatchLines(lines)| && MatchLines(lines)[k].number == i + 1
    decreases |lines|
  {
    var n := |lines| - 1;
    var front := MatchLines(lines[..n]);
    var ms := MatchLines(lines);
    assert ms == front + (if HasCjk(lines[n]) then [LineMatch(n + 1, RStrip(lines[n]))] else []);
    if i < n {
      assert lines[..n][i] == lines[i];
      MatchLinesComplete(lines[..n], i);
      var k :| 0 <= k < |front| && front[k].number == i + 1;
      assert ms[k] == front[k];
    } else {
      assert ms[|front|].number == i + 1;
    }
  }

  /** A file has a reported line iff one of its lines holds an ideograph. */
  lemma MatchLinesEmpty(lines: seq<string>)
    ensures MatchLines(lines) == [] <==> forall i :: 0 <= i < |lines| ==> !HasCjk(lines[i])
  {
    forall i | 0 <= i < |lines| && HasCjk(lines[i])
      ensures MatchLines(lines) != []
    {
      MatchLinesComplete(lines, i);
    }
  }

  /** No ideograph is whitespace. */
  lemma CjkIsNotSpace(c: char)
    requires IsCjk(c)
    ensures !IsSpace(c)
  {
  }

  /** Stripping the trailing whitespace keeps the ideographs: a reported text still holds one. */
  lemma ReportedTextHoldsCjk(line: string)
    requires HasCjk(line)
    ensures HasCjk(RStrip(line))
  {
    var i :| 0 <= i < |line| && IsCjk(line[i]);
    var r := RStrip(line);
    if i >= |r| {
      assert line[|r|..][i - |r|] == line[i];
      CjkIsNotSpace(line[i]);
    }
    assert r[i] == line[i];
  }

  /** `find_chinese_in_file`: the lines that hold an ideograph, each once and in reading order;
      a file that cannot be opened has no matches. */
  function FileMatches(file: Option<seq<string>>): (ms: seq<LineMatch>)
    ensures file.None? ==> ms == []
    ensures file.Some? ==> (forall k :: 0 <= k < |ms| ==> ReportsLine(file.value, ms[k])) && Increasing(ms)
    ensures file.Some? ==> forall i :: 0 <= i < |file.value| && HasCjk(file.value[i]) ==> Numbered(ms, i + 1)
  {
    match file
    case None => []
    case Some(lines) =>
      MatchLinesSound(lines);
      MatchLinesCompleteAll(lines);
      MatchLines(lines)
  }

  /** Some match of `ms` carries line number `n`. */
  predicate Numbered(ms: seq<LineMatch>, n: nat) {
    exists k :: 0 <= k < |ms| && ms[k].number == n
  }

  lemma MatchLinesCompleteAll(lines: seq<string>)
    ensures forall i :: 0 <= i < |lines| && HasCjk(lines[i]) ==> Numbered(MatchLines(lines), i + 1)
  {
    var ms := MatchLines(lines);
    forall i | 0 <= i < |lines| && HasCjk(lines[i])
      ensures Numbered(ms, i + 1)
    {
      MatchLinesComplete(lines, i);
    }
  }

  /** The loop of `find_chinese_in_file`, line by line. */
  method FindChineseInFile(file: Option<seq<string>>) returns (matches: seq<LineMatch>)
    ensures matches == FileMatches(file)
  {
    matches := [];
    if file.None? {
      return;
    }
    var lines := file.value;
    var lineNum := 1;
    while lineNum <= |lines|
      invariant 1 <= lineNum <= |lines| + 1
      invariant matches == MatchLines(lines[..lineNum - 1])
    {
      var line := lines[lineNum - 1];
      assert lines[..lineNum][..lineNum - 1] == lines[..lineNum - 1];
      if HasCjk(line) {
        matches := matches + [LineMatch(lineNum, RStrip(line))];
      }
      lineNum := lineNum + 1;
    }
    assert lines[..|lines|] == lines;
  }

  // ----- the skip rules of `scan_directory` -----

  /** Directories that are never entered. */
  const SkipDirs: set<string> := {".git", ".ruff_cache", "__pycache__", "node_modules", ".venv", "venv"}

  /** File extensions, lower-cased, that are never read. */
  const SkipExtensions: set<string> :=
    {".pyc", ".pyo", ".so", ".dylib", ".exe", ".bin", ".jpg", ".png", ".gif", ".ico", ".pdf"}

  /** Position of the last `c` in `s` (`str.rfind`), `None` when there is none. */
  function LastIndexOf(s: string, c: char): (r: Option<nat>)
    ensures r.None? <==> c !in s
    ensures r.Some? ==> r.value < |s| && s[r.value] == c && c !in s[r.value + 1..]
    decreases |s|
  {
    if |s| == 0 then None
    else if s[|s| - 1] == c then Some(|s| - 1)
    else
      var r := LastIndexOf(s[..|s| - 1], c);
      assert s == s[..|s| - 1] + [s[|s| - 1]];
      assert r.Some? ==> s[r.value + 1..] == s[..|s| - 1][r.value + 1..] + [s[|s| - 1]];
      r
  }

  /** `Path(name).suffix`: from the last dot on, unless that dot starts the name or ends it. */
  function Suffix(name: string): (x: string)
    ensures x == [] || (|x| >= 2 && |x| < |name| && x == name[|name| - |x|..] && x[0] == '.' && '.' !in x[1..])
  {
    match LastIndexOf(name, '.')
    case Some(i) =>
      if 0 < i < |name| - 1 then name[i..] else []
    case None => []
  }

  /** A name with a non-empty stem and one dot before a non-empty extension has that extension. */
  lemma SuffixOfStemAndExtension(stem: string, ext: string)
    requires |stem| > 0 && |ext| > 0 && '.' !in ext
    ensures Suffix(stem + "." + ext) == "." + ext
  {
    var name := stem + "." + ext;
    var i := |stem|;
    assert name[i] == '.';
    assert name[i + 1..] == ext;
    LastIndexOfSplit(name, '.', i);
    assert name[i..] == "." + ext;
  }

  /** The last `c` is at `i` when `s[i]` is `c` and none follows. */
  lemma LastIndexOfSplit(s: string, c: char, i: nat)
    requires i < |s| && s[i] == c && c !in s[i + 1..]
    ensures LastIndexOf(s, c) == Some(i)
  {
    var r := LastIndexOf(s, c);
    assert r.Some?;
  }

  /** A hidden file whose name is a dot and one dot-free word has no suffix: `.pyc` is read. */
  lemma DotFileHasNoSuffix(word: string)
    requires '.' !in word
    ensures Suffix("." + word) == [] && !SkippedFile("." + word)
  {
    var name := "." + word;
    assert name[1..] == word;
    LastIndexOfSplit(name, '.', 0);
    assert AsciiLowerString([]) == [];
  }

  /** `file_path.suffix.lower() in SKIP_EXTENSIONS`. Only ASCII letters are lowered: every
      extension of the set is ASCII, and the only other character that lowers to an ASCII letter
      (the Kelvin sign, to `k`) cannot complete one of them. */
  predicate SkippedFile(name: string) {
    AsciiLowerString(Suffix(name)) in SkipExtensions
  }

  /** A name with a stem and an extension is skipped iff its extension, lower-cased, is one of
      `SkipExtensions`: the test ignores the case of the extension. */
  lemma ExtensionSkippedIgnoringCase(stem: string, ext: string)
    requires |stem| > 0 && |ext| > 0 && '.' !in ext
    ensures SkippedFile(stem + "." + ext) <==> "." + AsciiLowerString(ext) in SkipExtensions
  {
    SuffixOfStemAndExtension(stem, ext);
    LowerDotExtension(ext);
  }

  lemma LowerDotExtension(ext: string)
    ensures AsciiLowerString("." + ext) == "." + AsciiLowerString(ext)
  {
    var l, r := AsciiLowerString("." + ext), "." + AsciiLowerString(ext);
    assert |l| == |r|;
    forall i | 0 <= i < |l|
      ensures l[i] == r[i]
    {
      if i > 0 {
        assert ("." + ext)[i] == ext[i - 1];
      }
    }
  }

  /** A name without a dot has no suffix and is read. */
  lemma NoDotRead(name: string)
    requires '.' !in name
    ensures Suffix(name) == [] && !SkippedFile(name)
  {
    assert AsciiLowerString([]) == [];
  }

  // ----- `scan_directory` over a tree -----

  /** An entry of a directory: a file with its lines (`None` when it cannot be opened) or a
      sub-directory with its entries, in listing order. */
  datatype Entry = File(name: string, lines: Option<seq<string>>) | Dir(name: string, children: seq<Entry>)

  /** One entry of the results: the directories from the root down to the file, its name and its
      reported lines. */
  datatype FileHit = FileHit(dirs: seq<string>, name: string, matches: seq<LineMatch>)

  /** The reported lines of a file entry; a directory has none. */
  function EntryMatches(e: Entry): seq<LineMatch> {
    match e
    case File(_, lines) => FileMatches(lines)
    case Dir(_, _) => []
  }

  /** The file is read and reported: its extension is not skipped and it has a match. */
  predicate Reported(e: Entry) {
    e.File? && !SkippedFile(e.name) && EntryMatches(e) != []
  }

  /** The result entry of a file directly in the directory at `path`. */
  function HitOf(path: seq<string>, f: Entry): FileHit {
    FileHit(path, f.name, EntryMatches(f))
  }

  /** The results of the files directly in a directory at `path`, in listing order: skipped
      extensions are not read and files without a match are dropped. */
  function FilesIn(path: seq<string>, entries: seq<Entry>): (hits: seq<FileHit>)
    ensures |hits| <= |entries|
    ensures forall k :: 0 <= k < |hits| ==> hits[k].dirs == path && hits[k].matches != []
  {
    var reported := Filter(entries, Reported);
    assert forall k :: 0 <= k < |reported| ==> reported[k] in reported;
    Map(reported, f => HitOf(path, f))
  }

  /** The walk of a directory at `path`: its own files first, then each sub-directory that is
      not pruned, in listing order (`os.walk`, top-down). */
  function Walk(path: seq<string>, entries: seq<Entry>): seq<FileHit>
    decreases entries, 1
  {
    FilesIn(path, entries) + SubWalks(path, entries)
  }

  /** The walks of the sub-directories among `entries` whose names are not in `SkipDirs`. */
  function SubWalks(path: seq<string>, entries: seq<Entry>): seq<FileHit>
    decreases entries, 0
  {
    if |entries| == 0 then []
    else
      var n := |entries| - 1;
      var e := entries[n];
      SubWalks(path, entries[..n]) +
        (if e.Dir? && e.name !in SkipDirs then Walk(path + [e.name], e.children) else [])
  }

  /** `scan_directory(root)`: exactly the reported files below the root, each under the route of
      directories that leads to it; a root that is a file yields nothing. */
  function ScanDirectory(root: Entry): (hits: seq<FileHit>)
    ensures root.File? ==> hits == []
    ensures root.Dir? ==> forall h :: h in hits ==> SoundHit([], root.children, h)
    ensures root.Dir? ==> forall rel, f :: Reaches(root.children, rel, f) && Reported(f) ==>
              FileHit(rel, f.name, EntryMatches(f)) in hits
  {
    match root
    case File(_, _) => []
    case Dir(_, children) =>
      WalkSound([], children);
      WalkCompleteAll(children);
      Walk([], children)
  }

  lemma WalkCompleteAll(entries: seq<Entry>)
    ensures forall rel, f :: Reaches(entries, rel, f) && Reported(f) ==>
              FileHit(rel, f.name, EntryMatches(f)) in Walk([], entries)
  {
    forall rel, f | Reaches(entries, rel, f) && Reported(f)
      ensures FileHit(rel, f.name, EntryMatches(f)) in Walk([], entries)
    {
      WalkComplete([], entries, rel, f);
      assert [] + rel == rel;
    }
  }

  /** File `f` lies below `entries` along the directories `rel`, none of which is pruned. */
  ghost predicate Reaches(entries: seq<Entry>, rel: seq<string>, f: Entry)
    decreases |rel|
  {
    if |rel| == 0 then f in entries && f.File?
    else exists d :: d in entries && d.Dir? && d.name == rel[0] && d.name !in SkipDirs
                     && Reaches(d.children, rel[1..], f)
  }

  /** Every result is a reported file below the walked directory, reached without entering a
      pruned directory, and carries that file's matches. */
  ghost predicate SoundHit(path: seq<string>, entries: seq<Entry>, h: FileHit) {
    |path| <= |h.dirs| && h.dirs[..|path|] == path
    && exists f :: Reaches(entries, h.dirs[|path|..], f) && Reported(f)
                   && f.name == h.name && EntryMatches(f) == h.matches
  }

  lemma {:induction false} WalkSound(path: seq<string>, entries: seq<Entry>)
    ensures forall h :: h in Walk(path, entries) ==> SoundHit(path, entries, h)
    decreases entries, 1
  {
    forall h | h in FilesIn(path, entries)
      ensures SoundHit(path, entries, h)
    {
      FilesInSound(path, entries, h);
    }
    SubWalksSound(path, entries);
  }

  lemma FilesInSound(path: seq<string>, entries: seq<Entry>, h: FileHit)
    requires h in FilesIn(path, entries)
    ensures SoundHit(path, entries, h)
  {
    var reported := Filter(entries, Reported);
    var k :| 0 <= k < |reported| && h == HitOf(path, reported[k]);
    assert reported[k] in reported;
    SoundHere(path, entries, reported[k]);
  }

  /** A reported file directly in the walked directory makes a sound result. */
  lemma SoundHere(path: seq<string>, entries: seq<Entry>, f: Entry)
    requires f in entries && Reported(f)
    ensures SoundHit(path, entries, HitOf(path, f))
  {
    var h := HitOf(path, f);
    assert h.dirs[|path|..] == [];
    assert Reaches(entries, [], f);
    SoundHitBy(path, entries, h, f);
  }

  /** A witness file makes a result sound. */
  lemma SoundHitBy(path: seq<string>, entries: seq<Entry>, h: FileHit, f: Entry)
    requires |path| <= |h.dirs| && h.dirs[..|path|] == path
    requires Reaches(entries, h.dirs[|path|..], f) && Reported(f)
    requires f.name == h.name && EntryMatches(f) == h.matches
    ensures SoundHit(path, entries, h)
  {
  }

  lemma {:induction false} SubWalksSound(path: seq<string>, entries: seq<Entry>)
    ensures forall h :: h in SubWalks(path, entries) ==> SoundHit(path, entries, h)
    decreases entries, 0
  {
    if |entries| > 0 {
      var n := |entries| - 1;
      var e := entries[n];
      SubWalksSound(path, entries[..n]);
      forall h | h in SubWalks(path, entries[..n])
        ensures SoundHit(path, entries, h)
      {
        SoundHitWider(path, entries[..n], entries, h);
      }
      if e.Dir? && e.name !in SkipDirs {
        WalkSound(path + [e.name], e.children);
        forall h | h in Walk(path + [e.name], e.children)
          ensures SoundHit(path, entries, h)
        {
          SoundHitDescend(path, entries, e, h);
        }
      }
    }
  }

  /** Soundness below fewer entries carries over to more. */
  lemma SoundHitWider(path: seq<string>, few: seq<Entry>, many: seq<Entry>, h: FileHit)
    requires forall e :: e in few ==> e in many
    requires SoundHit(path, few, h)
    ensures SoundHit(path, many, h)
  {
    var rel := h.dirs[|path|..];
    var f :| Reaches(few, rel, f) && Reported(f) && f.name == h.name && EntryMatches(f) == h.matches;
    if |rel| > 0 {
      var d :| d in few && d.Dir? && d.name == rel[0] && d.name !in SkipDirs && Reaches(d.children, rel[1..], f);
      assert Reaches(many, rel, f);
    }
  }

  /** A result of a sub-directory's walk is a result below its parent. */
  lemma SoundHitDescend(path: seq<string>, entries: seq<Entry>, d: Entry, h: FileHit)
    requires d in entries && d.Dir? && d.name !in SkipDirs
    requires SoundHit(path + [d.name], d.children, h)
    ensures SoundHit(path, entries, h)
  {
    var p := path + [d.name];
    var f := Witness(p, d.children, h);
    SplitPath(h.dirs, path, d.name);
    ReachesDown(entries, d, h.dirs[|p|..], f);
    SoundHitBy(path, entries, h, f);
  }

  /** The file a sound result comes from. */
  ghost function Witness(path: seq<string>, entries: seq<Entry>, h: FileHit): (f: Entry)
    requires SoundHit(path, entries, h)
    ensures Reaches(entries, h.dirs[|path|..], f) && Reported(f) && f.name == h.name && EntryMatches(f) == h.matches
  {
    var f :| Reaches(entries, h.dirs[|path|..], f) && Reported(f) && f.name == h.name && EntryMatches(f) == h.matches;
    f
  }

  /** A path that starts with `path + [name]` starts with `path`, followed by `name`. */
  lemma SplitPath(dirs: seq<string>, path: seq<string>, name: string)
    requires |path| + 1 <= |dirs| && dirs[..|path| + 1] == path + [name]
    ensures dirs[..|path|] == path && dirs[|path|..] == [name] + dirs[|path| + 1..]
  {
    assert dirs[..|path|] == dirs[..|path| + 1][..|path|];
    assert dirs[|path|] == dirs[..|path| + 1][|path|];
  }

  /** Entering a directory that is not pruned extends the route by its name. */
  lemma ReachesDown(entries: seq<Entry>, d: Entry, rel: seq<string>, f: Entry)
    requires d in entries && d.Dir? && d.name !in SkipDirs && Reaches(d.children, rel, f)
    ensures Reaches(entries, [d.name] + rel, f)
  {
    assert ([d.name] + rel)[1..] == rel;
  }

  /** Every reported file below the walked directory is among the results, under its path and
      with its matches. */
  lemma {:induction false} WalkComplete(path: seq<string>, entries: seq<Entry>, rel: seq<string>, f: Entry)
    requires Reaches(entries, rel, f) && Reported(f)
    ensures FileHit(path + rel, f.name, EntryMatches(f)) in Walk(path, entries)
    decreases entries, 1
  {
    if |rel| == 0 {
      assert path + rel == path;
      FilesInComplete(path, entries, f);
    } else {
      var d := FirstDir(entries, rel, f);
      SubWalksComplete(path, entries, d, rel[1..], f);
      JoinPath(path, rel);
    }
  }

  lemma JoinPath(path: seq<string>, rel: seq<string>)
    requires |rel| > 0
    ensures path + [rel[0]] + rel[1..] == path + rel
  {
  }

  /** The directory a non-empty route enters first. */
  ghost function FirstDir(entries: seq<Entry>, rel: seq<string>, f: Entry): (d: Entry)
    requires |rel| > 0 && Reaches(entries, rel, f)
    ensures d in entries && d.Dir? && d.name == rel[0] && d.name !in SkipDirs && Reaches(d.children, rel[1..], f)
  {
    var d :| d in entries && d.Dir? && d.name == rel[0] && d.name !in SkipDirs && Reaches(d.children, rel[1..], f);
    d
  }

  lemma FilesInComplete(path: seq<string>, entries: seq<Entry>, f: Entry)
    requires f in entries && Reported(f)
    ensures FileHit(path, f.name, EntryMatches(f)) in FilesIn(path, entries)
  {
    var reported := Filter(entries, Reported);
    var k :| 0 <= k < |reported| && reported[k] == f;
    assert FilesIn(path, entries)[k] == HitOf(path, f);
  }

  lemma {:induction false} SubWalksComplete(path: seq<string>, entries: seq<Entry>, d: Entry, rel: seq<string>, f: Entry)
    requires d in entries && d.Dir? && d.name !in SkipDirs
    requires Reaches(d.children, rel, f) && Reported(f)
    ensures FileHit(path + [d.name] + rel, f.name, EntryMatches(f)) in SubWalks(path, entries)
    decreases entries, 0
  {
    var n := |entries| - 1;
    if entries[n] == d {
      WalkComplete(path + [d.name], d.children, rel, f);
    } else {
      InFront(entries, d);
      SubWalksComplete(path, entries[..n], d, rel, f);
    }
  }

  /** An element other than the last is in the front part. */
  lemma InFront<T>(xs: seq<T>, x: T)
    requires x in xs && xs[|xs| - 1] != x
    ensures x in xs[..|xs| - 1]
  {
    var m :| 0 <= m < |xs| && xs[m] == x;
    assert xs[..|xs| - 1][m] == x;
  }

  /** No result lies below a pruned directory: pruning happens before descent. */
  lemma {:induction false} ReachesAvoidsSkipDirs(entries: seq<Entry>, rel: seq<string>, f: Entry)
    requires Reaches(entries, rel, f)
    ensures forall k :: 0 <= k < |rel| ==> rel[k] !in SkipDirs
    decreases |rel|
  {
    if |rel| > 0 {
      var d :| d in entries && d.Dir? && d.name == rel[0] && d.name !in SkipDirs && Reaches(d.children, rel[1..], f);
      ReachesAvoidsSkipDirs(d.children, rel[1..], f);
      assert forall k :: 1 <= k < |rel| ==> rel[k] == rel[1..][k - 1];
    }
  }

  /** The results of a scan: every file has a match, no skipped extension is read, and no
      directory on a result's path is one of `SkipDirs`. */
  lemma ScanResultsPruned(root: Entry)
    ensures forall h :: h in ScanDirectory(root) ==>
              && h.matches != [] && !SkippedFile(h.name)
              && forall k :: 0 <= k < |h.dirs| ==> h.dirs[k] !in SkipDirs
  {
    if root.Dir? {
      WalkSound([], root.children);
      forall h | h in ScanDirectory(root)
        ensures h.matches != [] && !SkippedFile(h.name)
        ensures forall k :: 0 <= k < |h.dirs| ==> h.dirs[k] !in SkipDirs
      {
        assert SoundHit([], root.children, h);
        var f :| Reaches(root.children, h.dirs[0..], f) && Reported(f)
                 && f.name == h.name && EntryMatches(f) == h.matches;
        assert h.dirs[0..] == h.dirs;
        ReachesAvoidsSkipDirs(root.children, h.dirs, f);
      }
    }
  }

  // ----- what `main` shows and returns -----

  /** At most this many lines are shown per file. */
  const MaxShownLines := 10

  /** Lines longer than this are cut. */
  const PreviewWidth := 100

  const Ellipsis := "..."

  /** `line[:100] + "..." if len(line) > 100 else line` */
  function Preview(line: string): (p: string)
    ensures |p| <= PreviewWidth + |Ellipsis|
    ensures |line| <= PreviewWidth ==> p == line
    ensures |line| > PreviewWidth ==>
              |p| == PreviewWidth + |Ellipsis| && p[..PreviewWidth] == line[..PreviewWidth] && p[PreviewWidth..] == Ellipsis
  {
    if |line| > PreviewWidth then line[..PreviewWidth] + Ellipsis else line
  }

  /** What `main` prints for one file: the number of reported lines, the lines shown as
      (number, preview), and how many are not shown (the overflow note is printed iff this is
      positive). */
  datatype FileBlock = FileBlock(count: nat, shown: seq<(nat, string)>, hidden: nat)

  function Block(h: FileHit): (b: FileBlock)
    ensures b.count == |h.matches| == |b.shown| + b.hidden
    ensures |b.shown| <= MaxShownLines
    ensures b.hidden > 0 <==> |h.matches| > MaxShownLines
    ensures forall k :: 0 <= k < |b.shown| ==>
              b.shown[k] == (h.matches[k].number, Preview(h.matches[k].text))
  {
    var first := Take(h.matches, MaxShownLines);
    var hidden := if |h.matches| > MaxShownLines then |h.matches| - MaxShownLines else 0;
    FileBlock(|h.matches|, Map(first, (m: LineMatch) => (m.number, Preview(m.text))), hidden)
  }

  /** `main`'s exit status; `root` is `None` when the directory does not exist. */
  function ExitCode(root: Option<Entry>): (code: int)
    ensures code == 0 || code == 1
    ensures root.None? ==> code == 1
  {
    match root
    case None => 1
    case Some(r) => if ScanDirectory(r) != [] then 0 else 1
  }

  /** Some reported file lies below `entries`. */
  ghost predicate SomeReported(entries: seq<Entry>) {
    exists rel, f :: Reaches(entries, rel, f) && Reported(f)
  }

  /** `main` succeeds iff the root is an existing directory below which some reported file lies:
      one whose extension is not skipped, reached without entering a pruned directory, with a
      line that holds an ideograph. */
  lemma ExitCodeIff(root: Option<Entry>)
    ensures ExitCode(root) == 0 <==> root.Some? && root.value.Dir? && SomeReported(root.value.children)
  {
    if root.Some? && root.value.Dir? {
      var children := root.value.children;
      if Walk([], children) != [] {
        SomeHitSound(children);
      }
      if SomeReported(children) {
        SomeHitComplete(children);
      }
    }
  }

  lemma SomeHitSound(children: seq<Entry>)
    requires Walk([], children) != []
    ensures SomeReported(children)
  {
    WalkSound([], children);
    var h := Walk([], children)[0];
    assert h in Walk([], children);
    assert SoundHit([], children, h);
    var f :| Reaches(children, h.dirs[0..], f) && Reported(f) && f.name == h.name && EntryMatches(f) == h.matches;
  }

  lemma SomeHitComplete(children: seq<Entry>)
    requires SomeReported(children)
    ensures Walk([], children) != []
  {
    var rel, f :| Reaches(children, rel, f) && Reported(f);
    WalkComplete([], children, rel, f);
  }

  /** A file is reported iff it is read and one of its lines holds an ideograph. */
  lemma ReportedIff(f: Entry)
    requires f.File?
    ensures Reported(f) <==>
              !SkippedFile(f.name) && f.lines.Some? && exists i :: 0 <= i < |f.lines.value| && HasCjk(f.lines.value[i])
  {
    if f.lines.Some? {
      MatchLinesEmpty(f.lines.value);
    }
  }
}
