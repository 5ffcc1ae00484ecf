/** Which backup configurations may coexist, and why a store that checks creates and updates stays free
    of conflicts. */
module ConfigConflicts {
  import opened Prelude
  import opened RemotePath

  datatype Direction = Upload | Download | Sync

  datatype Config = Config(id: string, name: string, localPath: string, remotePath: string, direction: Direction)

  datatype ConflictType = ParentExists | ChildExists | LoopConflict

  datatype ConflictingConfig = ConflictingConfig(config: Config, isParent: bool)

  datatype CheckResult = NoConflict | Conflict(kind: ConflictType, configs: seq<ConflictingConfig>)

  /** What local paths resolve to in the file system. */
  type Resolve = string -> string

  predicate SameKind(a: Direction, b: Direction) {
    match (a, b)
    case (Upload, Upload) => true
    case (Download, Download) => true
    case (Sync, _) => true
    case (_, Sync) => true
    case (Upload, Download) => false
    case (Download, Upload) => false
  }

  function LocalOverlap(fs: Resolve, a: string, b: string): Overlap {
    CheckPathOverlap(NormalizeLocal(fs, a), NormalizeLocal(fs, b))
  }

  /** Both the local and the remote paths overlap. */
  predicate Clash(fs: Resolve, local: string, remote: string, c: Config) {
    LocalOverlap(fs, local, c.localPath).IsOverlap() && CheckRemoteOverlap(remote, c.remotePath).IsOverlap()
  }

  predicate Concerns(fs: Resolve, local: string, remote: string, exclude: Option<string>, c: Config) {
    exclude != Some(c.id) && Clash(fs, local, remote, c)
  }

  function KindOf(fs: Resolve, local: string, direction: Direction, c: Config): ConflictType {
    if !SameKind(direction, c.direction) then LoopConflict
    else
      match LocalOverlap(fs, local, c.localPath)
      case AIsDescendant => ParentExists
      case Equal => ParentExists
      case _ => ChildExists
  }

  /** The configurations that clash with the candidate, in order. */
  function Clashing(fs: Resolve, local: string, remote: string, exclude: Option<string>, configs: seq<Config>)
    : seq<Config>
  {
    if configs == [] then []
    else
      var last := configs[|configs| - 1];
      Clashing(fs, local, remote, exclude, configs[..|configs| - 1])
      + if Concerns(fs, local, remote, exclude, last) then [last] else []
  }

  function Described(fs: Resolve, local: string, direction: Direction, cs: seq<Config>): seq<ConflictingConfig> {
    seq(|cs|, i requires 0 <= i < |cs| =>
      ConflictingConfig(cs[i], KindOf(fs, local, direction, cs[i]) == ParentExists))
  }

  function Kinds(fs: Resolve, local: string, direction: Direction, cs: seq<Config>): seq<ConflictType> {
    seq(|cs|, i requires 0 <= i < |cs| => KindOf(fs, local, direction, cs[i]))
  }

  /** The reported kind of several: the last that is not an existing child; child if all are. */
  function Verdict(kinds: seq<ConflictType>): Option<ConflictType> {
    if kinds == [] then None
    else
      var before, last := Verdict(kinds[..|kinds| - 1]), kinds[|kinds| - 1];
      if last != ChildExists || before == None then Some(last) else before
  }

  /** One round of the check: how the configuration clashes with the candidate, if it does. */
  method Classify(fs: Resolve, ghost local: string, ghost remote: string, normLocal: string, normRemote: string,
                  direction: Direction, exclude: Option<string>, config: Config)
    returns (kind: Option<ConflictType>)
    requires normLocal == NormalizeLocal(fs, local) && normRemote == Normalize(remote)
    ensures kind.Some? <==> Concerns(fs, local, remote, exclude, config)
    ensures kind.Some? ==> kind.value == KindOf(fs, local, direction, config)
  {
    if exclude == Some(config.id) {
      return None;
    }
    var existingRemote := NormalizeRemotePath(config.remotePath);
    var localOverlap := CheckPathOverlap(normLocal, NormalizeLocal(fs, config.localPath));
    var remoteOverlap := CheckPathOverlap(normRemote, existingRemote);
    if !localOverlap.IsOverlap() || !remoteOverlap.IsOverlap() {
      return None;
    }
    if SameKind(direction, config.direction) {
      var isParent := localOverlap == AIsDescendant || localOverlap == Equal;
      return Some(if isParent then ParentExists else ChildExists);
    }
    return Some(LoopConflict);
  }

  method ValidateConfigConflicts(fs: Resolve, local: string, remote: string, direction: Direction,
                                 configs: seq<Config>, exclude: Option<string>) returns (r: CheckResult)
    ensures var cs := Clashing(fs, local, remote, exclude, configs);
            if cs == [] then r == NoConflict
            else r.Conflict? && r.configs == Described(fs, local, direction, cs)
                 && Some(r.kind) == Verdict(Kinds(fs, local, direction, cs))
  {
    var normLocal := NormalizeLocal(fs, local);
    var normRemote := NormalizeRemotePath(remote);
    var conflicting := [];
    var kind := None;
    ghost var cs := [];
    for i := 0 to |configs|
      invariant cs == Clashing(fs, local, remote, exclude, configs[..i])
      invariant conflicting == Described(fs, local, direction, cs)
      invariant kind == Verdict(Kinds(fs, local, direction, cs))
    {
      assert configs[..i + 1][..i] == configs[..i];
      var current := Classify(fs, local, remote, normLocal, normRemote, direction, exclude, configs[i]);
      if current.Some? {
        KindsGrow(fs, local, direction, cs, configs[i]);
        conflicting := conflicting + [ConflictingConfig(configs[i], current.value == ParentExists)];
        if kind == None || current.value != ChildExists {
          kind := current;
        }
        cs := cs + [configs[i]];
      }
    }
    assert configs[..|configs|] == configs;
    VerdictIs(Kinds(fs, local, direction, cs));
    if conflicting == [] {
      return NoConflict;
    }
    return Conflict(kind.value, conflicting);
  }

  lemma KindsGrow(fs: Resolve, local: string, direction: Direction, cs: seq<Config>, c: Config)
    ensures Kinds(fs, local, direction, cs + [c]) == Kinds(fs, local, direction, cs) + [KindOf(fs, local, direction, c)]
    ensures Verdict(Kinds(fs, local, direction, cs + [c]))
         == var k := KindOf(fs, local, direction, c);
            var before := Verdict(Kinds(fs, local, direction, cs));
            if k != ChildExists || before == None then Some(k) else before
    ensures Described(fs, local, direction, cs + [c])
         == Described(fs, local, direction, cs)
             + [ConflictingConfig(c, KindOf(fs, local, direction, c) == ParentExists)]
  {
    var kinds := Kinds(fs, local, direction, cs);
    assert (kinds + [KindOf(fs, local, direction, c)])[..|kinds|] == kinds;
  }

  /** A kind is reported whenever there is a clash, so the source's unwrap cannot fail; the last clash
      that is not an existing child decides it. */
  lemma {:induction false} VerdictIs(kinds: seq<ConflictType>)
    ensures Verdict(kinds) == None <==> kinds == []
    ensures Verdict(kinds) == Some(ChildExists) <==>
      kinds != [] && forall i :: 0 <= i < |kinds| ==> kinds[i] == ChildExists
    ensures kinds != [] && Verdict(kinds) != Some(ChildExists) ==>
      exists i :: 0 <= i < |kinds| && Some(kinds[i]) == Verdict(kinds)
        && forall j :: i < j < |kinds| ==> kinds[j] == ChildExists
  {
    if kinds != [] {
      var n := |kinds| - 1;
      var front := kinds[..n];
      VerdictIs(front);
      if front != [] && kinds[n] == ChildExists && Verdict(front) != Some(ChildExists) {
        var i :| 0 <= i < |front| && Some(front[i]) == Verdict(front)
          && forall j :: i < j < |front| ==> front[j] == ChildExists;
        assert Some(kinds[i]) == Verdict(kinds);
        forall j | i < j < |kinds|
          ensures kinds[j] == ChildExists
        {
          if j < n { assert kinds[j] == front[j]; }
        }
      } else if kinds[n] != ChildExists {
        assert Some(kinds[n]) == Verdict(kinds);
      }
    }
  }

  lemma {:induction false} ClashingAre(
      fs: Resolve, local: string, remote: string, exclude: Option<string>, configs: seq<Config>)
    ensures forall c :: c in Clashing(fs, local, remote, exclude, configs) <==>
      c in configs && Concerns(fs, local, remote, exclude, c)
  {
    if configs != [] {
      ClashingAre(fs, local, remote, exclude, configs[..|configs| - 1]);
      assert configs == configs[..|configs| - 1] + [configs[|configs| - 1]];
    }
  }

  predicate Accepts(fs: Resolve, local: string, remote: string, exclude: Option<string>, configs: seq<Config>) {
    Clashing(fs, local, remote, exclude, configs) == []
  }

  /** A candidate is accepted exactly when no configuration other than the excluded one clashes with it;
      directions never matter for that. */
  lemma AcceptsIs(fs: Resolve, local: string, remote: string, exclude: Option<string>, configs: seq<Config>)
    ensures Accepts(fs, local, remote, exclude, configs) <==>
      forall c :: c in configs && Clash(fs, local, remote, c) ==> exclude == Some(c.id)
  {
    var cs := Clashing(fs, local, remote, exclude, configs);
    ClashingAre(fs, local, remote, exclude, configs);
    if cs == [] {
      forall c | c in configs && Clash(fs, local, remote, c)
        ensures exclude == Some(c.id)
      {
        assert c !in cs;
      }
    } else {
      assert cs[0] in cs;
    }
  }

  // ---------- the store ----------

  predicate UniqueIds(store: seq<Config>) {
    forall i, j :: 0 <= i < j < |store| ==> store[i].id != store[j].id
  }

  function Find(store: seq<Config>, id: string): (i: nat)
    ensures i <= |store|
    ensures i < |store| ==> store[i].id == id
    ensures forall j :: 0 <= j < i ==> store[j].id != id
  {
    if store == [] || store[0].id == id then 0
    else
      var i := Find(store[1..], id);
      assert forall j :: 0 < j <= i ==> store[j] == store[1..][j - 1];
      i + 1
  }

  datatype Op =
    | Create(config: Config)
    | Update(id: string, name: Option<string>, local: Option<string>, remote: Option<string>)
    | Delete(id: string)

  function Chosen(o: Option<string>, current: string): string { if o.Some? then o.value else current }

  function Updated(c: Config, op: Op): Config
    requires op.Update?
  {
    c.(name := Chosen(op.name, c.name), localPath := Chosen(op.local, c.localPath),
       remotePath := Chosen(op.remote, c.remotePath))
  }

  /** The store after an operation; a refused operation leaves it alone. */
  function Step(fs: Resolve, store: seq<Config>, op: Op): seq<Config> {
    match op
    case Create(c) => Created(fs, store, c)
    case Update(id, _, _, _) =>
      var i := Find(store, id);
      if i == |store| then store else Replaced(fs, store, i, Updated(store[i], op))
    case Delete(id) =>
      var i := Find(store, id);
      if i == |store| then store else Removed(store, i)
  }

  function Created(fs: Resolve, store: seq<Config>, c: Config): seq<Config> {
    if Accepts(fs, c.localPath, c.remotePath, None, store) then store + [c] else store
  }

  function Replaced(fs: Resolve, store: seq<Config>, i: nat, c: Config): seq<Config>
    requires i < |store|
  {
    if Accepts(fs, c.localPath, c.remotePath, Some(c.id), store) then store[i := c] else store
  }

  function Removed(store: seq<Config>, i: nat): seq<Config>
    requires i < |store|
  {
    store[..i] + store[i + 1..]
  }

  function Run(fs: Resolve, store: seq<Config>, ops: seq<Op>): seq<Config>
    decreases |ops|
  {
    if ops == [] then store else Run(fs, Step(fs, store, ops[0]), ops[1..])
  }

  /** Created configurations get ids not in use: they are random UUIDs. */
  predicate FreshIds(fs: Resolve, store: seq<Config>, ops: seq<Op>)
    decreases |ops|
  {
    ops != [] ==>
      && (ops[0].Create? ==> Find(store, ops[0].config.id) == |store|)
      && FreshIds(fs, Step(fs, store, ops[0]), ops[1..])
  }

  /** No two configurations clash. */
  ghost predicate ConflictFree(fs: Resolve, store: seq<Config>) {
    forall i, j :: 0 <= i < |store| && 0 <= j < |store| && i != j ==>
      !Clash(fs, store[i].localPath, store[i].remotePath, store[j])
  }

  lemma ClashIsSymmetric(fs: Resolve, a: Config, b: Config)
    ensures Clash(fs, a.localPath, a.remotePath, b) == Clash(fs, b.localPath, b.remotePath, a)
  {
    OverlapIsSymmetric(NormalizeLocal(fs, a.localPath), NormalizeLocal(fs, b.localPath));
    OverlapIsSymmetric(Normalize(a.remotePath), Normalize(b.remotePath));
  }

  lemma AcceptedMeansNoClash(fs: Resolve, c: Config, exclude: Option<string>, store: seq<Config>, i: nat)
    requires Accepts(fs, c.localPath, c.remotePath, exclude, store)
    requires i < |store| && exclude != Some(store[i].id)
    ensures !Clash(fs, c.localPath, c.remotePath, store[i])
    ensures !Clash(fs, store[i].localPath, store[i].remotePath, c)
  {
    AcceptsIs(fs, c.localPath, c.remotePath, exclude, store);
    assert store[i] in store;
    ClashIsSymmetric(fs, c, store[i]);
  }

  lemma CreateKeepsFree(fs: Resolve, store: seq<Config>, c: Config)
    requires UniqueIds(store) && ConflictFree(fs, store)
    requires Find(store, c.id) == |store|
    ensures UniqueIds(Created(fs, store, c)) && ConflictFree(fs, Created(fs, store, c))
  {
    if Accepts(fs, c.localPath, c.remotePath, None, store) {
      forall i | 0 <= i < |store|
        ensures !Clash(fs, c.localPath, c.remotePath, store[i])
        ensures !Clash(fs, store[i].localPath, store[i].remotePath, c)
      {
        AcceptedMeansNoClash(fs, c, None, store, i);
      }
      FreeExtends(fs, store, c);
    }
  }

  lemma FreeExtends(fs: Resolve, store: seq<Config>, c: Config)
    requires ConflictFree(fs, store)
    requires forall i :: 0 <= i < |store| ==>
      !Clash(fs, c.localPath, c.remotePath, store[i]) && !Clash(fs, store[i].localPath, store[i].remotePath, c)
    ensures ConflictFree(fs, store + [c])
  {
    var next := store + [c];
    forall i, j | 0 <= i < |next| && 0 <= j < |next| && i != j
      ensures !Clash(fs, next[i].localPath, next[i].remotePath, next[j])
    {
      if i < |store| && j < |store| {
        assert !Clash(fs, store[i].localPath, store[i].remotePath, store[j]);
      }
    }
  }

  lemma UpdateKeepsFree(fs: Resolve, store: seq<Config>, i: nat, c: Config)
    requires UniqueIds(store) && ConflictFree(fs, store)
    requires i < |store| && c.id == store[i].id
    ensures UniqueIds(Replaced(fs, store, i, c)) && ConflictFree(fs, Replaced(fs, store, i, c))
  {
    if Accepts(fs, c.localPath, c.remotePath, Some(c.id), store) {
      forall j | 0 <= j < |store| && j != i
        ensures !Clash(fs, c.localPath, c.remotePath, store[j])
        ensures !Clash(fs, store[j].localPath, store[j].remotePath, c)
      {
        AcceptedMeansNoClash(fs, c, Some(c.id), store, j);
      }
    }
  }

  lemma DeleteKeepsFree(fs: Resolve, store: seq<Config>, i: nat)
    requires UniqueIds(store) && ConflictFree(fs, store) && i < |store|
    ensures UniqueIds(Removed(store, i)) && ConflictFree(fs, Removed(store, i))
  {
    var rest := Removed(store, i);
    assert forall j :: 0 <= j < |rest| ==> rest[j] == store[if j < i then j else j + 1];
  }

  lemma StepKeepsFree(fs: Resolve, store: seq<Config>, op: Op)
    requires UniqueIds(store) && ConflictFree(fs, store)
    requires op.Create? ==> Find(store, op.config.id) == |store|
    ensures UniqueIds(Step(fs, store, op)) && ConflictFree(fs, Step(fs, store, op))
  {
    match op
    case Create(c) => CreateKeepsFree(fs, store, c);
    case Update(id, _, _, _) =>
      var i := Find(store, id);
      if i < |store| { UpdateKeepsFree(fs, store, i, Updated(store[i], op)); }
    case Delete(id) =>
      var i := Find(store, id);
      if i < |store| { DeleteKeepsFree(fs, store, i); }
  }

  lemma {:induction false} RunKeepsFree(fs: Resolve, store: seq<Config>, ops: seq<Op>)
    requires UniqueIds(store) && ConflictFree(fs, store)
    requires FreshIds(fs, store, ops)
    ensures UniqueIds(Run(fs, store, ops)) && ConflictFree(fs, Run(fs, store, ops))
    decreases |ops|
  {
    if ops != [] {
      StepKeepsFree(fs, store, ops[0]);
      RunKeepsFree(fs, Step(fs, store, ops[0]), ops[1..]);
    }
  }

  /** `validate_for_execute` of a stored configuration. */
  predicate Executable(fs: Resolve, store: seq<Config>, i: nat)
    requires i < |store|
  {
    Accepts(fs, store[i].localPath, store[i].remotePath, Some(store[i].id), store)
  }

  /** A store is free of conflicts exactly when every stored configuration passes the check before
      execution. */
  lemma FreeMeansExecutable(fs: Resolve, store: seq<Config>)
    requires UniqueIds(store)
    ensures ConflictFree(fs, store) <==> forall i :: 0 <= i < |store| ==> Executable(fs, store, i)
  {
    forall i | 0 <= i < |store|
      ensures Executable(fs, store, i) <==>
        forall j :: 0 <= j < |store| && j != i ==> !Clash(fs, store[i].localPath, store[i].remotePath, store[j])
    {
      AcceptsIs(fs, store[i].localPath, store[i].remotePath, Some(store[i].id), store);
      forall j | 0 <= j < |store|
        ensures store[j].id == store[i].id <==> j == i
      {
      }
      assert forall j :: 0 <= j < |store| ==> store[j] in store;
    }
  }

  /** Whatever creates, updates and deletes a store went through, every stored configuration is accepted
      when it is about to run. */
  lemma StoredConfigsExecute(fs: Resolve, ops: seq<Op>, i: nat)
    requires FreshIds(fs, [], ops)
    requires i < |Run(fs, [], ops)|
    ensures Executable(fs, Run(fs, [], ops), i)
  {
    RunKeepsFree(fs, [], ops);
    FreeMeansExecutable(fs, Run(fs, [], ops));
  }

  // ---------- what is reported, and what the store becomes ----------

  /** How a clash is classified.  An upload and a download form a loop.  Otherwise it depends on the local paths:
      the existing one at or above the candidate's is a parent, below it a child. */
  lemma KindMeans(fs: Resolve, local: string, remote: string, direction: Direction, c: Config)
    requires Clash(fs, local, remote, c)
    ensures var x, y := Segments(NormalizeLocal(fs, local)), Segments(NormalizeLocal(fs, c.localPath));
            var opposite := (direction == Upload && c.direction == Download)
                            || (direction == Download && c.direction == Upload);
            && (KindOf(fs, local, direction, c) == LoopConflict <==> opposite)
            && (KindOf(fs, local, direction, c) == ParentExists <==> !opposite && y <= x)
            && (KindOf(fs, local, direction, c) == ChildExists <==> !opposite && x < y)
  {
  }

  /** What is reported of each clash: the configuration, and whether it is a parent in that sense. */
  lemma DescribedMeans(fs: Resolve, local: string, remote: string, direction: Direction, cs: seq<Config>, i: nat)
    requires i < |cs| && Clash(fs, local, remote, cs[i])
    ensures var x, y := Segments(NormalizeLocal(fs, local)), Segments(NormalizeLocal(fs, cs[i].localPath));
            var described := Described(fs, local, direction, cs);
            && |described| == |cs| && described[i].config == cs[i]
            && (described[i].isParent <==>
                  && !(direction == Upload && cs[i].direction == Download)
                  && !(direction == Download && cs[i].direction == Upload)
                  && y <= x)
  {
    KindMeans(fs, local, remote, direction, cs[i]);
  }

  /** The clashing configurations are found one by one, in order. */
  lemma {:induction false} ClashingInParts(
      fs: Resolve, local: string, remote: string, exclude: Option<string>, a: seq<Config>, b: seq<Config>)
    ensures Clashing(fs, local, remote, exclude, a + b)
         == Clashing(fs, local, remote, exclude, a) + Clashing(fs, local, remote, exclude, b)
  {
    if b == [] {
      assert a + b == a;
    } else {
      assert (a + b)[..|a + b| - 1] == a + b[..|b| - 1];
      ClashingInParts(fs, local, remote, exclude, a, b[..|b| - 1]);
    }
  }

  lemma OneClash(fs: Resolve, local: string, remote: string, exclude: Option<string>, c: Config)
    ensures Clashing(fs, local, remote, exclude, [c]) ==
      if exclude != Some(c.id)
         && CheckPathOverlap(NormalizeLocal(fs, local), NormalizeLocal(fs, c.localPath)) != NoOverlap
         && CheckPathOverlap(Normalize(remote), Normalize(c.remotePath)) != NoOverlap
      then [c] else []
  {
    assert [c][..0] == [];
  }

  /** Creating appends the configuration exactly when nothing stored clashes with it. */
  lemma CreateMeans(fs: Resolve, store: seq<Config>, c: Config)
    ensures Step(fs, store, Create(c)) ==
      if forall x :: x in store ==> !Clash(fs, c.localPath, c.remotePath, x) then store + [c] else store
  {
    AcceptsIs(fs, c.localPath, c.remotePath, None, store);
  }

  /** Updating replaces the given texts of one configuration, and nothing else, exactly when no other stored
      configuration clashes with the result; deleting removes it. */
  lemma UpdateAndDeleteMean(fs: Resolve, store: seq<Config>, i: nat, name: Option<string>, local: Option<string>,
                            remote: Option<string>)
    requires UniqueIds(store) && i < |store|
    ensures var c := store[i];
            var u := Config(c.id, if name.Some? then name.value else c.name,
                            if local.Some? then local.value else c.localPath,
                            if remote.Some? then remote.value else c.remotePath, c.direction);
            Step(fs, store, Update(c.id, name, local, remote)) ==
              if forall x :: x in store && x.id != c.id ==> !Clash(fs, u.localPath, u.remotePath, x)
              then store[i := u] else store
    ensures Step(fs, store, Delete(store[i].id)) == store[..i] + store[i + 1..]
  {
    var c := store[i];
    var u := Updated(c, Update(c.id, name, local, remote));
    AcceptsIs(fs, u.localPath, u.remotePath, Some(c.id), store);
    assert Find(store, c.id) == i;
  }

  /** Nothing happens to a configuration that is not stored. */
  lemma UnknownIsIgnored(fs: Resolve, store: seq<Config>, op: Op)
    requires !op.Create? && forall i :: 0 <= i < |store| ==> store[i].id != op.id
    ensures Step(fs, store, op) == store
  {
  }
}
