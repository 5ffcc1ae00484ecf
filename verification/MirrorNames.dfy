/** Decrypting a directory: choosing output names, walking the tree, and the summary. */
module MirrorNames {
  import opened Prelude
  import opened Paths
  import opened Text

  // ---------- names ----------

  function Stem(name: string): string {
    match LastIndex(name, '.')
    case Some(i) => name[..i]
    case None => name
  }

  function Ext(name: string): string {
    match LastIndex(name, '.')
    case Some(i) => name[i..]
    case None => []
  }

  function Candidate(name: string, k: nat): string {
    Stem(name) + "(" + Decimal(k) + ")" + Ext(name)
  }

  /** The key under which the `k`-th candidate is remembered; the name itself counts as number 0. */
  function NameKey(dir: string, name: string, k: nat): string {
    Join(dir, if k == 0 then name else Candidate(name, k))
  }

  lemma CandidatesDiffer(name: string, j: nat, k: nat)
    requires j != k
    ensures Candidate(name, j) != Candidate(name, k)
    ensures Candidate(name, k) != name
  {
    if Candidate(name, j) == Candidate(name, k) {
      Middle(Stem(name) + "(", Decimal(j), ")" + Ext(name));
      Middle(Stem(name) + "(", Decimal(k), ")" + Ext(name));
      assert Candidate(name, j) == (Stem(name) + "(") + Decimal(j) + (")" + Ext(name));
      assert Candidate(name, k) == (Stem(name) + "(") + Decimal(k) + (")" + Ext(name));
      DecimalIsInjective(j, k);
    }
    assert |Candidate(name, k)| > |name|;
  }

  lemma CandidateKind(name: string, k: nat)
    ensures Absolute(Candidate(name, k)) == Absolute(name)
  {
    if Stem(name) == [] {
      assert Candidate(name, k)[0] == '(';
    } else {
      assert Candidate(name, k)[0] == Stem(name)[0] == name[0];
    }
  }

  /** The numbered names are pairwise distinct, also as full paths. */
  lemma KeysAreDistinct(dir: string, name: string, j: nat, k: nat)
    requires j < k
    ensures NameKey(dir, name, j) != NameKey(dir, name, k)
  {
    CandidateKind(name, j);
    CandidateKind(name, k);
    CandidatesDiffer(name, j, k);
    var a := if j == 0 then name else Candidate(name, j);
    if NameKey(dir, name, j) == NameKey(dir, name, k) {
      JoinIsInjective(dir, a, Candidate(name, k));
    }
  }

  /** The first `k` numbered names as a set. */
  function TakenKeys(dir: string, name: string, k: nat): set<string> {
    if k == 0 then {} else TakenKeys(dir, name, k - 1) + {NameKey(dir, name, k - 1)}
  }

  lemma {:induction false} LaterKeyIsNew(dir: string, name: string, k: nat, m: nat)
    requires k <= m
    ensures NameKey(dir, name, m) !in TakenKeys(dir, name, k)
  {
    if k > 0 {
      LaterKeyIsNew(dir, name, k - 1, m);
      KeysAreDistinct(dir, name, k - 1, m);
    }
  }

  /** By distinctness the first `k` numbered names are exactly `k` names. */
  lemma {:induction false} TakenKeysCount(dir: string, name: string, k: nat, used: set<string>)
    requires forall j :: 0 <= j < k ==> NameKey(dir, name, j) in used
    ensures |TakenKeys(dir, name, k)| == k && TakenKeys(dir, name, k) <= used
  {
    if k > 0 {
      TakenKeysCount(dir, name, k - 1, used);
      LaterKeyIsNew(dir, name, k - 1, k - 1);
    }
  }

  lemma SubsetCount<T>(a: set<T>, b: set<T>)
    requires a <= b
    ensures |a| <= |b|
  {
    if a != {} {
      var x :| x in a;
      SubsetCount(a - {x}, b - {x});
    }
  }

  /** When the first `k` numbered names are all taken, there are at least `k` taken names. */
  lemma AllTaken(used: set<string>, dir: string, name: string, k: nat)
    requires forall j :: 0 <= j < k ==> NameKey(dir, name, j) in used
    ensures k <= |used|
  {
    TakenKeysCount(dir, name, k, used);
    SubsetCount(TakenKeys(dir, name, k), used);
  }

  /** Number of the first free name at or after `k`. */
  function FirstFree(used: set<string>, dir: string, name: string, k: nat): (r: nat)
    requires forall j :: 0 <= j < k ==> NameKey(dir, name, j) in used
    ensures k <= r <= |used|
    ensures NameKey(dir, name, r) !in used
    ensures forall j :: 0 <= j < r ==> NameKey(dir, name, j) in used
    decreases |used| - k
  {
    AllTaken(used, dir, name, k);
    if NameKey(dir, name, k) !in used then k
    else
      AllTaken(used, dir, name, k + 1);
      FirstFree(used, dir, name, k + 1)
  }

  lemma FirstFreeIs(used: set<string>, dir: string, name: string, r: nat)
    requires NameKey(dir, name, r) !in used
    requires forall j :: 0 <= j < r ==> NameKey(dir, name, j) in used
    ensures FirstFree(used, dir, name, 0) == r
  {
  }

  // ---------- the tree and the run ----------

  datatype Check = Encrypted | NotEncrypted | CheckFailed

  datatype Record = Record(originalPath: string, originalName: string)

  /** A regular file with what the mapping, the key store and the decryption answer about it. */
  datatype File = File(
    input: string, hasName: bool, check: Check, record: Option<Record>, hasKey: bool, decrypts: bool)

  datatype Entry =
    | SubDir(name: string, readable: bool, entries: seq<Entry>)
    | Regular(file: File)
    | Special
    | Broken

  datatype FileResult =
    | Succeeded(input: string, output: string)
    | Skipped(input: string)
    | Failed(input: string)

  /** Names used so far, output paths handed to the decryption so far, and the summary. */
  datatype Progress = Progress(used: set<string>, outputs: seq<string>, results: seq<FileResult>)

  const START: Progress := Progress({}, [], [])

  /** Leading slashes, then leading backslashes, are dropped. */
  function TrimStart(s: string, c: char): string {
    if s != [] && s[0] == c then TrimStart(s[1..], c) else s
  }

  function DefaultPath(outDir: string, path: string, name: string): string {
    var clean := TrimStart(TrimStart(path, '/'), '\\');
    if clean == [] then Join(outDir, name) else Join(Join(outDir, clean), name)
  }

  /** Where a file goes, and the names used afterwards. */
  function Place(p: Progress, mirror: bool, outDir: string, rel: string, r: Record): (string, set<string>) {
    if mirror then
      var dir := Join(outDir, rel);
      var key := NameKey(dir, r.originalName, FirstFree(p.used, dir, r.originalName, 0));
      (key, p.used + {key})
    else (DefaultPath(outDir, r.originalPath, r.originalName), p.used)
  }

  function Report(p: Progress, r: FileResult): Progress { p.(results := p.results + [r]) }

  function DoFile(p: Progress, mirror: bool, outDir: string, rel: string, f: File): Progress {
    if !f.hasName then Report(p, Skipped(f.input))
    else if f.check == NotEncrypted then Report(p, Skipped(f.input))
    else if f.check == CheckFailed then Report(p, Failed(f.input))
    else if f.record.None? then Report(p, Skipped(f.input))
    else if !f.hasKey then Report(p, Failed(f.input))
    else
      var place := Place(p, mirror, outDir, rel, f.record.value);
      var p1 := p.(used := place.1, outputs := p.outputs + [place.0]);
      Report(p1, if f.decrypts then Succeeded(f.input, place.0) else Failed(f.input))
  }

  /** Walking a list of entries; false when an unreadable directory or entry ended the walk. */
  function Walk(p: Progress, mirror: bool, outDir: string, rel: string, entries: seq<Entry>): (Progress, bool)
    decreases entries
  {
    if entries == [] then (p, true)
    else
      var first := WalkEntry(p, mirror, outDir, rel, entries[0]);
      if !first.1 then first else Walk(first.0, mirror, outDir, rel, entries[1..])
  }

  function WalkEntry(p: Progress, mirror: bool, outDir: string, rel: string, e: Entry): (Progress, bool)
    decreases e
  {
    match e
    case SubDir(name, readable, entries) =>
      if readable then Walk(p, mirror, outDir, Join(rel, name), entries) else (p, false)
    case Regular(file) => (DoFile(p, mirror, outDir, rel, file), true)
    case Special => (p, true)
    case Broken => (p, false)
  }

  /** The whole run: an aborted walk is reported as one more failure. */
  function RunDirectory(mirror: bool, inDir: string, outDir: string, root: Entry): Progress
    requires root.SubDir?
  {
    if !root.readable then Report(START, Failed(inDir))
    else
      var r := Walk(START, mirror, outDir, [], root.entries);
      if r.1 then r.0 else Report(r.0, Failed(inDir))
  }

  class DirectoryRun {
    const mirror: bool
    const outDir: string
    var used: set<string>
    var outputs: seq<string>
    var results: seq<FileResult>

    function Model(): Progress
      reads this
    {
      Progress(used, outputs, results)
    }

    constructor (mirror: bool, outDir: string)
      ensures this.mirror == mirror && this.outDir == outDir && Model() == START
    {
      this.mirror := mirror;
      this.outDir := outDir;
      used, outputs, results := {}, [], [];
    }

    /** The name itself when free, otherwise the free candidate with the smallest number; that number
        never exceeds the count of used names. */
    method GetUniqueName(name: string, dir: string) returns (unique: string)
      modifies this`used
      ensures var k := FirstFree(old(used), dir, name, 0);
              && unique == (if k == 0 then name else Candidate(name, k))
              && used == old(used) + {NameKey(dir, name, k)}
    {
      var key := Join(dir, name);
      if key !in used {
        used := used + {key};
        return name;
      }
      var counter := 1;
      while Join(dir, Candidate(name, counter)) in used
        invariant 1 <= counter
        invariant used == old(used)
        invariant forall j :: 0 <= j < counter ==> NameKey(dir, name, j) in used
        decreases |used| - counter
      {
        AllTaken(used, dir, name, counter + 1);
        counter := counter + 1;
      }
      FirstFreeIs(used, dir, name, counter);
      unique := Candidate(name, counter);
      used := used + {Join(dir, unique)};
    }

    method BuildOutputPath(rel: string, r: Record) returns (path: string)
      modifies this`used
      ensures (path, used) == Place(old(Model()), mirror, outDir, rel, r)
    {
      if mirror {
        var dir := Join(outDir, rel);
        var unique := GetUniqueName(r.originalName, dir);
        path := Join(dir, unique);
      } else {
        path := DefaultPath(outDir, r.originalPath, r.originalName);
      }
    }

    method ProcessFile(rel: string, f: File)
      modifies this
      ensures Model() == DoFile(old(Model()), mirror, outDir, rel, f)
    {
      if !f.hasName || f.check == NotEncrypted {
        results := results + [Skipped(f.input)];
        return;
      }
      if f.check == CheckFailed {
        results := results + [Failed(f.input)];
        return;
      }
      if f.record.None? {
        results := results + [Skipped(f.input)];
        return;
      }
      if !f.hasKey {
        results := results + [Failed(f.input)];
        return;
      }
      var path := BuildOutputPath(rel, f.record.value);
      outputs := outputs + [path];
      results := results + [if f.decrypts then Succeeded(f.input, path) else Failed(f.input)];
    }

    method ProcessDirectory(rel: string, entries: seq<Entry>) returns (ok: bool)
      modifies this
      ensures (Model(), ok) == Walk(old(Model()), mirror, outDir, rel, entries)
      decreases entries
    {
      var i := 0;
      while i < |entries|
        invariant 0 <= i <= |entries|
        invariant Walk(old(Model()), mirror, outDir, rel, entries)
               == Walk(Model(), mirror, outDir, rel, entries[i..])
      {
        assert entries[i..][0] == entries[i] && entries[i..][1..] == entries[i + 1..];
        match entries[i] {
          case SubDir(name, readable, below) =>
            if !readable {
              return false;
            }
            var done := ProcessDirectory(Join(rel, name), below);
            if !done {
              return false;
            }
          case Regular(file) =>
            ProcessFile(rel, file);
          case Special =>
          case Broken =>
            return false;
        }
        i := i + 1;
      }
      return true;
    }
  }

  method DecryptDirectory(mirror: bool, inDir: string, outDir: string, root: Entry) returns (p: Progress)
    requires root.SubDir?
    ensures p == RunDirectory(mirror, inDir, outDir, root)
  {
    var run := new DirectoryRun(mirror, outDir);
    var ok := false;
    if root.readable {
      ok := run.ProcessDirectory([], root.entries);
    }
    if !ok {
      run.results := run.results + [Failed(inDir)];
    }
    p := run.Model();
  }

  // ---------- what a whole run guarantees ----------

  /** Output paths so far are pairwise distinct, and all of them are remembered. */
  ghost predicate Separate(p: Progress) {
    Distinct(p.outputs) && forall i :: 0 <= i < |p.outputs| ==> p.outputs[i] in p.used
  }

  /** Successful results name paths handed out, in order and without repetition. */
  ghost predicate Traced(p: Progress) {
    forall i, j :: 0 <= i < j < |p.results| && p.results[i].Succeeded? && p.results[j].Succeeded? ==>
      p.results[i].output != p.results[j].output
  }

  ghost predicate Tidy(p: Progress) {
    Separate(p) && Traced(p)
    && forall i :: 0 <= i < |p.results| && p.results[i].Succeeded? ==> p.results[i].output in p.used
  }

  lemma DoFileKeepsTidy(p: Progress, outDir: string, rel: string, f: File)
    requires Tidy(p)
    ensures Tidy(DoFile(p, true, outDir, rel, f))
    ensures |DoFile(p, true, outDir, rel, f).results| == |p.results| + 1
  {
  }

  lemma {:induction false} WalkKeepsTidy(p: Progress, outDir: string, rel: string, entries: seq<Entry>)
    requires Tidy(p)
    ensures Tidy(Walk(p, true, outDir, rel, entries).0)
    decreases entries
  {
    if entries != [] {
      WalkEntryKeepsTidy(p, outDir, rel, entries[0]);
      WalkKeepsTidy(WalkEntry(p, true, outDir, rel, entries[0]).0, outDir, rel, entries[1..]);
    }
  }

  lemma {:induction false} WalkEntryKeepsTidy(p: Progress, outDir: string, rel: string, e: Entry)
    requires Tidy(p)
    ensures Tidy(WalkEntry(p, true, outDir, rel, e).0)
    decreases e
  {
    match e
    case SubDir(name, readable, entries) => if readable { WalkKeepsTidy(p, outDir, Join(rel, name), entries); }
    case Regular(file) => DoFileKeepsTidy(p, outDir, rel, file);
    case Special =>
    case Broken =>
  }

  /** In mirror mode no two files of a directory run, successful or not, are sent to the same path string. */
  lemma MirrorOutputsAreDistinct(inDir: string, outDir: string, root: Entry)
    requires root.SubDir?
    ensures var p := RunDirectory(true, inDir, outDir, root); Distinct(p.outputs) && Traced(p)
  {
    if root.readable {
      WalkKeepsTidy(START, outDir, [], root.entries);
    }
  }

  // ---------- outputs as files, not only as strings ----------

  /** The relative path of a directory reached through these names. */
  function Spell(dirs: seq<string>): string {
    if dirs == [] then [] else Join(Spell(dirs[..|dirs| - 1]), dirs[|dirs| - 1])
  }

  predicate AllFileNames(names: seq<string>) { forall i :: 0 <= i < |names| ==> FileName(names[i]) }

  /** Directories carry file names, and so do the original names of the recorded files. */
  predicate PlainEntries(entries: seq<Entry>)
    decreases entries
  {
    entries != [] ==> PlainEntry(entries[0]) && PlainEntries(entries[1..])
  }

  predicate PlainEntry(e: Entry)
    decreases e
  {
    match e
    case SubDir(name, _, entries) => FileName(name) && PlainEntries(entries)
    case Regular(file) => file.record.Some? ==> FileName(file.record.value.originalName)
    case _ => true
  }

  predicate PutAt(o: string, outDir: string, dirs: seq<string>, name: string) {
    AllFileNames(dirs) && FileName(name) && o == Join(Join(outDir, Spell(dirs)), name)
  }

  /** The output is a file in a directory below the output directory. */
  ghost predicate Placed(o: string, outDir: string) { exists dirs, name :: PutAt(o, outDir, dirs, name) }

  ghost predicate AllPlaced(p: Progress, outDir: string) {
    forall i :: 0 <= i < |p.outputs| ==> Placed(p.outputs[i], outDir)
  }

  lemma {:induction false} SpellIs(dirs: seq<string>)
    requires AllFileNames(dirs)
    ensures !Absolute(Spell(dirs)) && Components(Spell(dirs)) == dirs
  {
    if dirs != [] {
      var front, last := dirs[..|dirs| - 1], dirs[|dirs| - 1];
      SpellIs(front);
      ComponentsOfName(last);
      ComponentsOfJoin(Spell(front), last);
      assert dirs == front + [last];
    }
  }

  lemma CandidateIsFileName(name: string, k: nat)
    requires FileName(name)
    ensures FileName(Candidate(name, k))
  {
    var s, d := Candidate(name, k), Decimal(k);
    assert forall i :: 0 <= i < |d| ==> d[i] != '/';
    assert '/' !in Stem(name) && '/' !in Ext(name);
    assert |d| > 0 && s[|Stem(name)|] == '(' && |s| > 2;
  }

  lemma {:induction false} WalkPlaces(p: Progress, outDir: string, dirs: seq<string>, entries: seq<Entry>)
    requires AllPlaced(p, outDir) && AllFileNames(dirs) && PlainEntries(entries)
    ensures AllPlaced(Walk(p, true, outDir, Spell(dirs), entries).0, outDir)
    decreases entries
  {
    if entries != [] {
      WalkEntryPlaces(p, outDir, dirs, entries[0]);
      WalkPlaces(WalkEntry(p, true, outDir, Spell(dirs), entries[0]).0, outDir, dirs, entries[1..]);
    }
  }

  lemma {:induction false} WalkEntryPlaces(p: Progress, outDir: string, dirs: seq<string>, e: Entry)
    requires AllPlaced(p, outDir) && AllFileNames(dirs) && PlainEntry(e)
    ensures AllPlaced(WalkEntry(p, true, outDir, Spell(dirs), e).0, outDir)
    decreases e
  {
    match e
    case SubDir(name, readable, entries) =>
      assert (dirs + [name])[..|dirs|] == dirs;
      if readable { WalkPlaces(p, outDir, dirs + [name], entries); }
    case Regular(f) =>
      if f.record.Some? {
        var dir, name := Join(outDir, Spell(dirs)), f.record.value.originalName;
        var k := FirstFree(p.used, dir, name, 0);
        if k > 0 { CandidateIsFileName(name, k); }
        assert PutAt(NameKey(dir, name, k), outDir, dirs, if k == 0 then name else Candidate(name, k));
      }
    case Special =>
    case Broken =>
  }

  lemma PutAtComponents(o: string, outDir: string, dirs: seq<string>, name: string)
    requires PutAt(o, outDir, dirs, name)
    ensures Components(o) == Components(outDir) + dirs + [name]
  {
    SpellIs(dirs);
    ComponentsOfName(name);
    ComponentsOfJoin(outDir, Spell(dirs));
    ComponentsOfJoin(Join(outDir, Spell(dirs)), name);
  }

  lemma SamePlace(o: string, o': string, outDir: string)
    requires Placed(o, outDir) && Placed(o', outDir) && Components(o) == Components(o')
    ensures o == o'
  {
    var dirs, name :| PutAt(o, outDir, dirs, name);
    var dirs', name' :| PutAt(o', outDir, dirs', name');
    PutAtComponents(o, outDir, dirs, name);
    PutAtComponents(o', outDir, dirs', name');
    SameTail(Components(outDir), dirs, name, dirs', name');
  }

  lemma SameTail(a: seq<string>, b: seq<string>, x: string, b': seq<string>, x': string)
    requires a + b + [x] == a + b' + [x']
    ensures b == b' && x == x'
  {
    var s := a + b + [x];
    assert s[|a|..|s| - 1] == b && s[|s| - 1] == x;
    assert (a + b' + [x'])[|a|..|s| - 1] == b';
  }

  /** The outputs are different files, not only different strings, when directories and original names are
      file names: no two outputs go through the same components. */
  lemma MirrorFilesAreDistinct(inDir: string, outDir: string, root: Entry)
    requires root.SubDir? && PlainEntries(root.entries)
    ensures var outputs := RunDirectory(true, inDir, outDir, root).outputs;
            forall i, j :: 0 <= i < j < |outputs| ==> Components(outputs[i]) != Components(outputs[j])
  {
    if root.readable {
      MirrorOutputsAreDistinct(inDir, outDir, root);
      WalkPlaces(START, outDir, [], root.entries);
      var outputs := RunDirectory(true, inDir, outDir, root).outputs;
      forall i, j | 0 <= i < j < |outputs|
        ensures Components(outputs[i]) != Components(outputs[j])
      {
        if Components(outputs[i]) == Components(outputs[j]) { SamePlace(outputs[i], outputs[j], outDir); }
      }
    }
  }

  /** Why original names have to be file names: the names `a` and `./a` are different strings, so both are
      kept as they are, but they are spellings of one file. */
  lemma SpellingsCollide(path: string)
    ensures var first := Place(START, true, "out", [], Record(path, "a"));
            var second := Place(START.(used := first.1), true, "out", [], Record(path, "./a"));
            && first.0 == "out/a" && second.0 == "out/./a"
            && Components(first.0) == Components(second.0)
  {
    assert Join("out", []) == "out/";
    assert NameKey("out/", "a", 0) == "out/a" && NameKey("out/", "./a", 0) == "out/./a";
    FirstFreeIs({}, "out/", "a", 0);
    assert "out/a"[4] != "out/./a"[4];
    FirstFreeIs({"out/a"}, "out/", "./a", 0);
    assert "out/a" == "out" + "/" + "a" && "out/./a" == "out" + "/" + ("./" + "a");
    DotsDoNotCount("out", "a");
  }

  // ---------- what a run does with every file ----------

  /** A regular file and the relative path of the directory it was found in. */
  datatype Visit = Visit(rel: string, file: File)

  /** The regular files below a directory in walk order; none stands for a directory or entry that cannot be
      read. */
  function Listing(rel: string, entries: seq<Entry>): seq<Option<Visit>>
    decreases entries
  {
    if entries == [] then [] else ListingOf(rel, entries[0]) + Listing(rel, entries[1..])
  }

  function ListingOf(rel: string, e: Entry): seq<Option<Visit>>
    decreases e
  {
    match e
    case SubDir(name, readable, entries) => if readable then Listing(Join(rel, name), entries) else [None]
    case Regular(file) => [Some(Visit(rel, file))]
    case Special => []
    case Broken => [None]
  }

  /** The files before the first entry that cannot be read. */
  function Before(l: seq<Option<Visit>>): seq<Visit> {
    if l == [] || l[0] == None then [] else [l[0].value] + Before(l[1..])
  }

  /** These are the listed files up to that point, position by position. */
  lemma {:induction false} BeforeIs(l: seq<Option<Visit>>)
    ensures |Before(l)| <= |l| && forall i :: 0 <= i < |Before(l)| ==> l[i] == Some(Before(l)[i])
    ensures |Before(l)| < |l| ==> l[|Before(l)|] == None
  {
    if l != [] && l[0] != None { BeforeIs(l[1..]); }
  }

  lemma {:induction false} BeforeSplits(a: seq<Option<Visit>>, b: seq<Option<Visit>>)
    ensures Before(a + b) == if None in a then Before(a) else Before(a) + Before(b)
  {
    if a == [] {
      assert a + b == b;
    } else {
      assert (a + b)[1..] == a[1..] + b;
      BeforeSplits(a[1..], b);
    }
  }

  /** The files one after the other. */
  function DoAll(p: Progress, mirror: bool, outDir: string, vs: seq<Visit>): Progress {
    if vs == [] then p
    else
      var v := vs[|vs| - 1];
      DoFile(DoAll(p, mirror, outDir, vs[..|vs| - 1]), mirror, outDir, v.rel, v.file)
  }

  lemma {:induction false} DoAllSplits(p: Progress, mirror: bool, outDir: string, a: seq<Visit>, b: seq<Visit>)
    ensures DoAll(p, mirror, outDir, a + b) == DoAll(DoAll(p, mirror, outDir, a), mirror, outDir, b)
  {
    if b == [] {
      assert a + b == a;
    } else {
      assert (a + b)[..|a + b| - 1] == a + b[..|b| - 1];
      DoAllSplits(p, mirror, outDir, a, b[..|b| - 1]);
    }
  }

  /** The walk does the listed files one after the other, and ends early exactly when something cannot be
      read. */
  lemma {:induction false} WalkDoesAll(p: Progress, mirror: bool, outDir: string, rel: string, entries: seq<Entry>)
    ensures var l := Listing(rel, entries);
            Walk(p, mirror, outDir, rel, entries) == (DoAll(p, mirror, outDir, Before(l)), None !in l)
    decreases entries
  {
    if entries != [] {
      var l, later := ListingOf(rel, entries[0]), Listing(rel, entries[1..]);
      WalkEntryDoesAll(p, mirror, outDir, rel, entries[0]);
      BeforeSplits(l, later);
      DoAllSplits(p, mirror, outDir, Before(l), Before(later));
      WalkDoesAll(DoAll(p, mirror, outDir, Before(l)), mirror, outDir, rel, entries[1..]);
    }
  }

  lemma {:induction false} WalkEntryDoesAll(p: Progress, mirror: bool, outDir: string, rel: string, e: Entry)
    ensures var l := ListingOf(rel, e);
            WalkEntry(p, mirror, outDir, rel, e) == (DoAll(p, mirror, outDir, Before(l)), None !in l)
    decreases e
  {
    match e
    case SubDir(name, readable, entries) => if readable { WalkDoesAll(p, mirror, outDir, Join(rel, name), entries); }
    case Regular(f) => OneVisit(p, mirror, outDir, Visit(rel, f));
    case Special =>
    case Broken =>
  }

  lemma OneVisit(p: Progress, mirror: bool, outDir: string, v: Visit)
    ensures DoAll(p, mirror, outDir, Before([Some(v)])) == DoFile(p, mirror, outDir, v.rel, v.file)
  {
    assert Before([Some(v)]) == [v] && [v][..0] == [];
  }

  /** The file is handed to the decryption: it has a name, is encrypted, and its record and key are known. */
  predicate Sent(f: File) { f.hasName && f.check == Encrypted && f.record.Some? && f.hasKey }

  /** How many of the files were handed to the decryption. */
  function SentCount(vs: seq<Visit>): (n: nat)
    ensures n <= |vs|
  {
    if vs == [] then 0 else SentCount(vs[..|vs| - 1]) + if Sent(vs[|vs| - 1].file) then 1 else 0
  }

  /** What the summary says of a file: success with the path exactly when it is decrypted; skipped when it has
      no name, is not encrypted, or is encrypted and not recorded; failed otherwise. */
  predicate Explains(r: FileResult, f: File, path: string) {
    if Sent(f) && f.decrypts then r == Succeeded(f.input, path)
    else if !f.hasName || f.check == NotEncrypted || (f.check == Encrypted && f.record == None)
    then r == Skipped(f.input)
    else r == Failed(f.input)
  }

  /** The path is the file's place: in mirror mode its original name in its own directory, or the candidate with
      the smallest number not taken by an earlier path; otherwise below its original path. */
  ghost predicate IsPlaceOf(path: string, mirror: bool, outDir: string, v: Visit, earlier: seq<string>)
    requires v.file.record.Some?
  {
    var r := v.file.record.value;
    if mirror then exists k: nat :: IsFreeName(path, Join(outDir, v.rel), r.originalName, k, earlier)
    else path == DefaultPath(outDir, r.originalPath, r.originalName)
  }

  ghost predicate IsFreeName(path: string, dir: string, name: string, k: nat, earlier: seq<string>) {
    && path == Join(dir, if k == 0 then name else Candidate(name, k)) && path !in earlier
    && (k > 0 ==> Join(dir, name) in earlier)
    && forall j :: 0 < j < k ==> Join(dir, Candidate(name, j)) in earlier
  }

  /** Every file so far has its result and, when it was sent, its path, both in order. */
  ghost predicate Summarises(p: Progress, mirror: bool, outDir: string, vs: seq<Visit>) {
    && |p.results| == |vs| && |p.outputs| == SentCount(vs)
    && forall i :: 0 <= i < |vs| ==> VisitIsSummarised(p, mirror, outDir, vs, i)
  }

  ghost predicate VisitIsSummarised(p: Progress, mirror: bool, outDir: string, vs: seq<Visit>, i: nat)
    requires i < |vs| == |p.results|
  {
    var n, f := SentCount(vs[..i]), vs[i].file;
    if Sent(f) then
      && n < |p.outputs| && Explains(p.results[i], f, p.outputs[n])
      && IsPlaceOf(p.outputs[n], mirror, outDir, vs[i], p.outputs[..n])
    else Explains(p.results[i], f, "")
  }

  /** In mirror mode the names remembered are the paths handed out. */
  ghost predicate Remembers(p: Progress, mirror: bool) {
    mirror ==> forall o :: o in p.used <==> o in p.outputs
  }

  lemma EarlierStaysSummarised(p: Progress, q: Progress, mirror: bool, outDir: string, vs: seq<Visit>, v: Visit, i: nat)
    requires Summarises(p, mirror, outDir, vs) && i < |vs|
    requires p.outputs <= q.outputs && p.results <= q.results && |q.results| == |vs| + 1
    ensures VisitIsSummarised(q, mirror, outDir, vs + [v], i)
  {
    var n := SentCount(vs[..i]);
    assert (vs + [v])[..i] == vs[..i];
    assert VisitIsSummarised(p, mirror, outDir, vs, i);
    if Sent(vs[i].file) { assert q.outputs[..n] == p.outputs[..n]; }
  }

  lemma LastIsSummarised(p: Progress, mirror: bool, outDir: string, vs: seq<Visit>, v: Visit)
    requires Summarises(p, mirror, outDir, vs) && Remembers(p, mirror)
    ensures var q := DoFile(p, mirror, outDir, v.rel, v.file);
            |q.results| == |vs| + 1 && VisitIsSummarised(q, mirror, outDir, vs + [v], |vs|)
  {
    var q := DoFile(p, mirror, outDir, v.rel, v.file);
    assert (vs + [v])[..|vs|] == vs;
    if Sent(v.file) {
      assert q.outputs[..|p.outputs|] == p.outputs;
      if mirror {
        var dir, name := Join(outDir, v.rel), v.file.record.value.originalName;
        var k := FirstFree(p.used, dir, name, 0);
        assert forall j :: 0 <= j < k ==> NameKey(dir, name, j) in p.outputs;
        assert k > 0 ==> NameKey(dir, name, 0) in p.outputs;
        assert forall j :: 0 < j < k ==> NameKey(dir, name, j) == Join(dir, Candidate(name, j));
        assert IsFreeName(q.outputs[|p.outputs|], dir, name, k, p.outputs);
      }
    }
  }

  lemma DoFileSummarises(p: Progress, mirror: bool, outDir: string, vs: seq<Visit>, v: Visit)
    requires Summarises(p, mirror, outDir, vs) && Remembers(p, mirror)
    ensures var q := DoFile(p, mirror, outDir, v.rel, v.file);
            Summarises(q, mirror, outDir, vs + [v]) && Remembers(q, mirror)
  {
    var q := DoFile(p, mirror, outDir, v.rel, v.file);
    assert (vs + [v])[..|vs|] == vs;
    LastIsSummarised(p, mirror, outDir, vs, v);
    forall i | 0 <= i < |vs + [v]|
      ensures VisitIsSummarised(q, mirror, outDir, vs + [v], i)
    {
      if i < |vs| { EarlierStaysSummarised(p, q, mirror, outDir, vs, v, i); }
    }
  }

  lemma {:induction false} DoAllSummarises(mirror: bool, outDir: string, vs: seq<Visit>)
    ensures Summarises(DoAll(START, mirror, outDir, vs), mirror, outDir, vs)
    ensures Remembers(DoAll(START, mirror, outDir, vs), mirror)
  {
    if vs != [] {
      var front := vs[..|vs| - 1];
      DoAllSummarises(mirror, outDir, front);
      DoFileSummarises(DoAll(START, mirror, outDir, front), mirror, outDir, front, vs[|vs| - 1]);
      assert vs == front + [vs[|vs| - 1]];
    }
  }

  /**
   A whole run.  The files listed before the first entry that cannot be read have, in walk order, each one
   result that says what happened to it, and each one that was sent has its path; when something cannot be
   read one more result reports the input directory as failed.
   */
  lemma RunIsSummarised(mirror: bool, inDir: string, outDir: string, root: Entry)
    requires root.SubDir?
    ensures var p := RunDirectory(mirror, inDir, outDir, root);
            var l := if root.readable then Listing([], root.entries) else [None];
            var n := |Before(l)|;
            && |p.results| == n + (if None in l then 1 else 0)
            && Summarises(p.(results := p.results[..n]), mirror, outDir, Before(l))
            && (None in l ==> p.results[n] == Failed(inDir))
  {
    if root.readable {
      var vs := Before(Listing([], root.entries));
      WalkDoesAll(START, mirror, outDir, [], root.entries);
      DoAllSummarises(mirror, outDir, vs);
      var p := DoAll(START, mirror, outDir, vs);
      assert p.results[..|vs|] == p.results && (p.results + [Failed(inDir)])[..|vs|] == p.results;
    }
  }

  function Inputs(rs: seq<FileResult>): seq<string> { seq(|rs|, i requires 0 <= i < |rs| => rs[i].input) }

  function InputsOf(vs: seq<Visit>): seq<string> { seq(|vs|, i requires 0 <= i < |vs| => vs[i].file.input) }

  /** In particular the summary names the regular files of the tree, each once and in walk order, and nothing
      else; when something cannot be read it names those before it, and then the input directory. */
  lemma EveryFileIsReported(mirror: bool, inDir: string, outDir: string, root: Entry)
    requires root.SubDir?
    ensures var p := RunDirectory(mirror, inDir, outDir, root);
            var l := if root.readable then Listing([], root.entries) else [None];
            && Inputs(p.results) == InputsOf(Before(l)) + (if None in l then [inDir] else [])
            && (None in l ==> p.results[|p.results| - 1] == Failed(inDir))
  {
    RunIsSummarised(mirror, inDir, outDir, root);
    var p := RunDirectory(mirror, inDir, outDir, root);
    var l := if root.readable then Listing([], root.entries) else [None];
    forall i | 0 <= i < |Before(l)|
      ensures p.results[i].input == Before(l)[i].file.input
    {
      assert VisitIsSummarised(p.(results := p.results[..|Before(l)|]), mirror, outDir, Before(l), i);
    }
  }

  // ---------- names and places ----------

  /** A candidate keeps the extension: the number stands in front of the last dot, or at the end. */
  lemma CandidateKeepsExtension(stem: string, ext: string, k: nat)
    requires '.' !in ext
    ensures Candidate(stem + "." + ext, k) == stem + "(" + Decimal(k) + ")." + ext
    ensures Candidate(ext, k) == ext + "(" + Decimal(k) + ")"
  {
    LastDot(stem, ext);
    NoLastIndex(ext, '.');
    assert ext + "(" + Decimal(k) + ")" + [] == ext + "(" + Decimal(k) + ")";
  }

  /** Outside mirror mode a file goes below the output directory to its original path, whose leading slashes and
      then backslashes do not count, and its original name. */
  lemma DefaultPlace(outDir: string, slashes: string, backslashes: string, path: string, name: string)
    requires forall i :: 0 <= i < |slashes| ==> slashes[i] == '/'
    requires forall i :: 0 <= i < |backslashes| ==> backslashes[i] == '\\'
    requires path != [] ==> path[0] != '\\' && (backslashes == [] ==> path[0] != '/')
    ensures DefaultPath(outDir, slashes + backslashes + path, name) ==
      if path == [] then Join(outDir, name) else Join(Join(outDir, path), name)
  {
    TrimsRun(slashes, '/', backslashes + path);
    assert slashes + (backslashes + path) == slashes + backslashes + path;
    TrimsRun(backslashes, '\\', path);
  }

  lemma {:induction false} TrimsRun(run: string, c: char, rest: string)
    requires forall i :: 0 <= i < |run| ==> run[i] == c
    requires rest != [] ==> rest[0] != c
    ensures TrimStart(run + rest, c) == rest
  {
    if run == [] {
      assert run + rest == rest;
    } else {
      assert (run + rest)[1..] == run[1..] + rest;
      TrimsRun(run[1..], c, rest);
    }
  }
}
