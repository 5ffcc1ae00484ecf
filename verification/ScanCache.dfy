/**
 The scan cache: a buffer of pending writes in front of a keyed table.  Whatever the moment at which
 the buffer is flushed, the pair behaves like one plain map from (configuration, path) to file facts.
 */
module ScanCache {
  import opened Prelude

  datatype Key = Key(config: string, path: string)

  datatype Row = Row(relativePath: string, mtime: int, size: int, headMd5: Option<string>, lastScanAt: int)

  datatype Entry = Entry(key: Key, row: Row)

  /** A scanned file to be compared with the cache. */
  datatype Scanned = Scanned(path: string, mtime: int, size: int)

  type Table = map<Key, Row>

  const BATCH_THRESHOLD: nat := 100
  const FLUSH_SECONDS: int := 3
  const CHUNK: nat := 500

  /** The table after writing the entries in order; a later entry replaces an earlier one. */
  function Written(table: Table, entries: seq<Entry>): Table {
    if entries == [] then table
    else
      var last := entries[|entries| - 1];
      Written(table, entries[..|entries| - 1])[last.key := last.row]
  }

  predicate Changed(table: Table, config: string, f: Scanned) {
    var key := Key(config, f.path);
    key in table ==> table[key].mtime != f.mtime || table[key].size != f.size
  }

  /** The files that are new or differ, in input order. */
  function ChangedFiles(table: Table, config: string, files: seq<Scanned>): seq<Scanned> {
    if files == [] then []
    else
      var last := files[|files| - 1];
      ChangedFiles(table, config, files[..|files| - 1]) + if Changed(table, config, last) then [last] else []
  }

  function OfConfig(table: Table, config: string): set<Key> {
    set k | k in table && k.config == config
  }

  // ---------- the plain map ----------

  datatype Op =
    | BatchUpsert(entries: seq<Entry>)
    | Flush
    | FindChanged(config: string, files: seq<Scanned>)
    | DeleteByConfig(config: string)
    | DeleteByPath(key: Key)
    | UpsertSingle(entry: Entry)

  datatype Reply = Done | Files(files: seq<Scanned>) | Count(n: nat) | Existed(b: bool)

  /** What each operation means on one plain map. */
  function Meaning(table: Table, op: Op): (Table, Reply) {
    match op
    case BatchUpsert(entries) => (Written(table, entries), Done)
    case Flush => (table, Done)
    case FindChanged(config, files) => (table, Files(ChangedFiles(table, config, files)))
    case DeleteByConfig(config) => (table - OfConfig(table, config), Count(|OfConfig(table, config)|))
    case DeleteByPath(key) => (table - {key}, Existed(key in table))
    case UpsertSingle(entry) => (table[entry.key := entry.row], Done)
  }

  // ---------- the buffered cache ----------

  datatype State = State(table: Table, pending: seq<Entry>, lastFlush: int)

  /** The plain map the cache stands for. */
  function View(s: State): Table { Written(s.table, s.pending) }

  function Flushed(s: State, now: int): State {
    if s.pending == [] then s else State(Written(s.table, s.pending), [], now)
  }

  function BatchUpserted(s: State, entries: seq<Entry>, now: int): State {
    if entries == [] then s
    else
      var s1 := s.(pending := s.pending + entries);
      if |s1.pending| >= BATCH_THRESHOLD || now - s.lastFlush >= FLUSH_SECONDS then Flushed(s1, now) else s1
  }

  /** One call on the buffered cache at time `now`. */
  function Step(s: State, op: Op, now: int): (State, Reply) {
    match op
    case BatchUpsert(entries) => (BatchUpserted(s, entries, now), Done)
    case Flush => (Flushed(s, now), Done)
    case FindChanged(config, files) =>
      var s1 := Flushed(s, now);
      (s1, Files(ChangedFiles(s1.table, config, files)))
    case DeleteByConfig(config) =>
      var s1 := Flushed(s, now);
      (s1.(table := s1.table - OfConfig(s1.table, config)), Count(|OfConfig(s1.table, config)|))
    case DeleteByPath(key) =>
      var s1 := Flushed(s, now);
      (s1.(table := s1.table - {key}), Existed(key in s1.table))
    case UpsertSingle(entry) => (s.(table := s.table[entry.key := entry.row]), Done)
  }

  class ScanCacheManager {
    var table: Table
    var pending: seq<Entry>
    var lastFlush: int

    function Model(): State
      reads this
    {
      State(table, pending, lastFlush)
    }

    constructor (table: Table, now: int)
      ensures Model() == State(table, [], now)
    {
      this.table := table;
      pending := [];
      lastFlush := now;
    }

    method Flush(now: int)
      modifies this
      ensures Model() == Flushed(old(Model()), now)
    {
      if pending == [] {
        return;
      }
      var entries := pending;
      pending := [];
      var i := 0;
      while i < |entries|
        invariant 0 <= i <= |entries| && pending == [] && lastFlush == old(lastFlush)
        invariant table == Written(old(table), entries[..i])
      {
        assert entries[..i + 1][..i] == entries[..i];
        table := table[entries[i].key := entries[i].row];
        i := i + 1;
      }
      assert entries[..i] == entries;
      lastFlush := now;
    }

    method BatchUpsert(entries: seq<Entry>, now: int)
      modifies this
      ensures Model() == BatchUpserted(old(Model()), entries, now)
    {
      if entries == [] {
        return;
      }
      pending := pending + entries;
      if |pending| >= BATCH_THRESHOLD || now - lastFlush >= FLUSH_SECONDS {
        Flush(now);
      }
    }

    /** The rows of the configuration whose path occurs in the chunk, by path. */
    method FetchRows(config: string, chunk: seq<Scanned>) returns (fetched: map<string, Row>)
      ensures forall i :: 0 <= i < |chunk| ==>
        (chunk[i].path in fetched <==> Key(config, chunk[i].path) in table)
        && (chunk[i].path in fetched ==> fetched[chunk[i].path] == table[Key(config, chunk[i].path)])
    {
      fetched := map f | f in chunk && Key(config, f.path) in table :: f.path := table[Key(config, f.path)];
    }

    /** The comparison of one chunk with the rows fetched for it, after the files done so far. */
    method CompareChunk(config: string, chunk: seq<Scanned>, fetched: map<string, Row>,
                        before: seq<Scanned>, ghost done: seq<Scanned>) returns (changed: seq<Scanned>)
      requires before == ChangedFiles(table, config, done)
      requires forall i :: 0 <= i < |chunk| ==>
        (chunk[i].path in fetched <==> Key(config, chunk[i].path) in table)
        && (chunk[i].path in fetched ==> fetched[chunk[i].path] == table[Key(config, chunk[i].path)])
      ensures changed == ChangedFiles(table, config, done + chunk)
    {
      changed := before;
      var i := 0;
      assert done + chunk[..0] == done;
      while i < |chunk|
        invariant 0 <= i <= |chunk|
        invariant changed == ChangedFiles(table, config, done + chunk[..i])
      {
        var f := chunk[i];
        assert (done + chunk[..i + 1])[..|done| + i] == done + chunk[..i];
        if f.path in fetched {
          if f.mtime != fetched[f.path].mtime || f.size != fetched[f.path].size {
            changed := changed + [f];
          }
        } else {
          changed := changed + [f];
        }
        i := i + 1;
      }
      assert chunk[..i] == chunk;
    }

    /** Compares in chunks of 500 against rows fetched per chunk; the result is that of one
        unchunked comparison, in input order. */
    method FindChangedFiles(config: string, files: seq<Scanned>, now: int) returns (changed: seq<Scanned>)
      modifies this
      ensures (Model(), Files(changed)) == Step(old(Model()), FindChanged(config, files), now)
    {
      Flush(now);
      changed := [];
      var start := 0;
      while start < |files|
        invariant 0 <= start <= |files|
        invariant Model() == Flushed(old(Model()), now)
        invariant changed == ChangedFiles(table, config, files[..start])
      {
        var stop := if start + CHUNK < |files| then start + CHUNK else |files|;
        var chunk := files[start..stop];
        var fetched := FetchRows(config, chunk);
        changed := CompareChunk(config, chunk, fetched, changed, files[..start]);
        assert files[..start] + chunk == files[..stop];
        start := stop;
      }
      assert files[..start] == files;
    }

    method DeleteByConfig(config: string, now: int) returns (deleted: nat)
      modifies this
      ensures (Model(), Count(deleted)) == Step(old(Model()), Op.DeleteByConfig(config), now)
    {
      Flush(now);
      var gone := OfConfig(table, config);
      deleted := |gone|;
      table := table - gone;
    }

    method DeleteByPath(config: string, path: string, now: int) returns (existed: bool)
      modifies this
      ensures (Model(), Existed(existed)) == Step(old(Model()), Op.DeleteByPath(Key(config, path)), now)
    {
      Flush(now);
      existed := Key(config, path) in table;
      table := table - {Key(config, path)};
    }

    method UpsertSingle(entry: Entry)
      modifies this
      ensures forall now :: Model() == Step(old(Model()), Op.UpsertSingle(entry), now).0
    {
      table := table[entry.key := entry.row];
    }
  }

  // ---------- refinement ----------

  lemma {:induction false} WrittenInParts(table: Table, a: seq<Entry>, b: seq<Entry>)
    ensures Written(table, a + b) == Written(Written(table, a), b)
  {
    if b == [] {
      assert a + b == a;
    } else {
      WrittenInParts(table, a, b[..|b| - 1]);
      assert (a + b)[..|a + b| - 1] == a + b[..|b| - 1];
    }
  }

  /** The last pending row for a key, if any. */
  function PendingRow(pending: seq<Entry>, key: Key): Option<Row> {
    if pending == [] then None
    else if pending[|pending| - 1].key == key then Some(pending[|pending| - 1].row)
    else PendingRow(pending[..|pending| - 1], key)
  }

  lemma {:induction false} WrittenAt(table: Table, pending: seq<Entry>, key: Key)
    ensures key in Written(table, pending) <==> key in table || PendingRow(pending, key).Some?
    ensures PendingRow(pending, key).Some? ==>
      key in Written(table, pending) && Written(table, pending)[key] == PendingRow(pending, key).value
    ensures PendingRow(pending, key).None? && key in table ==> Written(table, pending)[key] == table[key]
  {
    if pending != [] {
      WrittenAt(table, pending[..|pending| - 1], key);
    }
  }

  /** A single upsert writes past the buffer: it acts like a plain map write just when no pending write
      for its key disagrees with it. */
  lemma SingleUpsertRefines(s: State, e: Entry, now: int)
    ensures View(Step(s, UpsertSingle(e), now).0) == View(s)[e.key := e.row]
       <==> (PendingRow(s.pending, e.key) == None || PendingRow(s.pending, e.key) == Some(e.row))
  {
    var after := View(Step(s, UpsertSingle(e), now).0);
    forall k
      ensures k in after <==> k in View(s)[e.key := e.row]
      ensures k in after && k != e.key ==> after[k] == View(s)[k]
    {
      WrittenAt(s.table, s.pending, k);
      WrittenAt(s.table[e.key := e.row], s.pending, k);
    }
    WrittenAt(s.table[e.key := e.row], s.pending, e.key);
    if PendingRow(s.pending, e.key) == None || PendingRow(s.pending, e.key) == Some(e.row) {
      assert after[e.key] == e.row;
    }
  }

  /** It does happen: an entry still pending from a batch replaces a newer row written past the buffer. */
  lemma PendingWriteWins(key: Key, older: Row, newer: Row, now: int)
    requires older != newer
    ensures var calls := [Call(BatchUpsert([Entry(key, older)]), now), Call(UpsertSingle(Entry(key, newer)), now)];
            var end := RunCache(State(map[], [], now), calls).0;
            && View(end) == map[key := older]
            && RunMap(map[], calls).0 == map[key := newer]
  {
    var start := State(map[], [], now);
    var batch, single := BatchUpsert([Entry(key, older)]), UpsertSingle(Entry(key, newer));
    var pending := State(map[], [Entry(key, older)], now);
    assert Step(start, batch, now).0 == pending;
    var end := Step(pending, single, now).0;
    assert end == State(map[key := newer], [Entry(key, older)], now);
    var calls := [Call(batch, now), Call(single, now)];
    assert calls[1..] == [Call(single, now)] && calls[1..][1..] == [];
    assert RunCache(pending, calls[1..]).0 == end;
    assert Written(map[key := newer], []) == map[key := newer];
    assert View(end) == map[key := newer][key := older];
    assert [Entry(key, older)][..0] == [];
    assert Written(map[], []) == map[];
    assert Meaning(map[], batch).0 == map[key := older];
    assert RunMap(map[key := older], calls[1..]).0 == map[key := older][key := newer];
  }

  /** The precondition under which a call refines the plain map; only single upserts have one. */
  predicate Allowed(s: State, op: Op) {
    op.UpsertSingle? ==>
      PendingRow(s.pending, op.entry.key) == None || PendingRow(s.pending, op.entry.key) == Some(op.entry.row)
  }

  lemma StepRefines(s: State, op: Op, now: int)
    requires Allowed(s, op)
    ensures var r := Step(s, op, now); (View(r.0), r.1) == Meaning(View(s), op)
    ensures |s.pending| < BATCH_THRESHOLD ==> |Step(s, op, now).0.pending| < BATCH_THRESHOLD
  {
    match op
    case BatchUpsert(entries) =>
      if entries == [] {
      } else {
        WrittenInParts(s.table, s.pending, entries);
      }
    case UpsertSingle(e) => SingleUpsertRefines(s, e, now);
    case _ =>
  }

  datatype Call = Call(op: Op, now: int)

  /** The replies of a series of calls on the cache, and the state they end in. */
  function RunCache(s: State, calls: seq<Call>): (State, seq<Reply>)
    decreases |calls|
  {
    if calls == [] then (s, [])
    else
      var r := Step(s, calls[0].op, calls[0].now);
      var rest := RunCache(r.0, calls[1..]);
      (rest.0, [r.1] + rest.1)
  }

  /** The same on a plain map; the times, and so the moments of flushing, play no role. */
  function RunMap(table: Table, calls: seq<Call>): (Table, seq<Reply>)
    decreases |calls|
  {
    if calls == [] then (table, [])
    else
      var r := Meaning(table, calls[0].op);
      var rest := RunMap(r.0, calls[1..]);
      (rest.0, [r.1] + rest.1)
  }

  ghost predicate AllAllowed(s: State, calls: seq<Call>)
    decreases |calls|
  {
    calls != [] ==> Allowed(s, calls[0].op) && AllAllowed(Step(s, calls[0].op, calls[0].now).0, calls[1..])
  }

  /** For any sequence of calls at any times, every reply equals that of a plain map, the contents stay
      equal, and fewer than 100 writes are pending between calls. */
  lemma {:induction false} CacheRefinesMap(s: State, calls: seq<Call>)
    requires |s.pending| < BATCH_THRESHOLD && AllAllowed(s, calls)
    ensures var c := RunCache(s, calls);
            (View(c.0), c.1) == RunMap(View(s), calls) && |c.0.pending| < BATCH_THRESHOLD
    decreases |calls|
  {
    if calls != [] {
      StepRefines(s, calls[0].op, calls[0].now);
      CacheRefinesMap(Step(s, calls[0].op, calls[0].now).0, calls[1..]);
    }
  }

  /** Two runs of the same calls that flush at different moments give the same replies. */
  lemma FlushTimesAreInvisible(s: State, a: seq<Call>, b: seq<Call>)
    requires |s.pending| < BATCH_THRESHOLD && AllAllowed(s, a) && AllAllowed(s, b)
    requires |a| == |b| && forall i :: 0 <= i < |a| ==> a[i].op == b[i].op
    ensures RunCache(s, a).1 == RunCache(s, b).1
    ensures View(RunCache(s, a).0) == View(RunCache(s, b).0)
  {
    CacheRefinesMap(s, a);
    CacheRefinesMap(s, b);
    TimesDoNotMatter(View(s), a, b);
  }

  lemma {:induction false} TimesDoNotMatter(table: Table, a: seq<Call>, b: seq<Call>)
    requires |a| == |b| && forall i :: 0 <= i < |a| ==> a[i].op == b[i].op
    ensures RunMap(table, a) == RunMap(table, b)
    decreases |a|
  {
    if a != [] {
      TimesDoNotMatter(Meaning(table, a[0].op).0, a[1..], b[1..]);
    }
  }

  /** The comparison returns exactly the input files that are new or differ. */
  lemma {:induction false} ChangedFilesAre(table: Table, config: string, files: seq<Scanned>)
    ensures forall f :: f in ChangedFiles(table, config, files) <==> f in files && Changed(table, config, f)
  {
    if files != [] {
      ChangedFilesAre(table, config, files[..|files| - 1]);
      assert files == files[..|files| - 1] + [files[|files| - 1]];
    }
  }

  /** Comparing in pieces and joining the results is comparing the whole. */
  lemma {:induction false} ChangedInParts(table: Table, config: string, a: seq<Scanned>, b: seq<Scanned>)
    ensures ChangedFiles(table, config, a + b) == ChangedFiles(table, config, a) + ChangedFiles(table, config, b)
  {
    if b == [] {
      assert a + b == a;
    } else {
      ChangedInParts(table, config, a, b[..|b| - 1]);
      assert (a + b)[..|a + b| - 1] == a + b[..|b| - 1];
    }
  }

  // ---------- what the plain map does ----------

  /** A file counts as changed when it is not in the map, or there with another time or size. */
  lemma OneFileChanged(table: Table, config: string, f: Scanned)
    ensures ChangedFiles(table, config, [f]) ==
      if Key(config, f.path) !in table
         || table[Key(config, f.path)].mtime != f.mtime || table[Key(config, f.path)].size != f.size
      then [f] else []
  {
    assert [f][..0] == [];
  }

  /** The last entry for a key decides its row; keys without an entry keep theirs. */
  lemma {:induction false} LastEntryWins(table: Table, entries: seq<Entry>, key: Key, i: nat)
    requires i <= |entries| && forall j :: i <= j < |entries| ==> entries[j].key != key
    requires i > 0 ==> entries[i - 1].key == key
    ensures var after := Meaning(table, BatchUpsert(entries)).0;
            if i > 0 then key in after && after[key] == entries[i - 1].row
            else (key in after <==> key in table) && (key in table ==> after[key] == table[key])
  {
    if i < |entries| { LastEntryWins(table, entries[..|entries| - 1], key, i); }
  }

  /** Deleting a configuration removes exactly its rows and reports how many. */
  lemma DeleteByConfigMeans(table: Table, config: string)
    ensures var after, reply := Meaning(table, DeleteByConfig(config)).0, Meaning(table, DeleteByConfig(config)).1;
            && (forall k :: k in after <==> k in table && k.config != config)
            && (forall k :: k in after ==> after[k] == table[k])
            && reply == Count(|set k | k in table && k.config == config|)
  {
  }

  /** Deleting a path removes exactly its row and reports whether there was one. */
  lemma DeleteByPathMeans(table: Table, key: Key)
    ensures var after, reply := Meaning(table, DeleteByPath(key)).0, Meaning(table, DeleteByPath(key)).1;
            && (forall k :: k in after <==> k in table && k != key)
            && (forall k :: k in after ==> after[k] == table[k])
            && reply == Existed(key in table)
  {
  }

  /** Everything else leaves the map alone, but for the one row a single upsert writes. */
  lemma OtherCallsMean(table: Table, config: string, files: seq<Scanned>, e: Entry)
    ensures Meaning(table, Flush) == (table, Done)
    ensures Meaning(table, FindChanged(config, files)).0 == table
    ensures var after := Meaning(table, UpsertSingle(e)).0;
            && after.Keys == table.Keys + {e.key} && after[e.key] == e.row
            && forall k :: k in table && k != e.key ==> after[k] == table[k]
  {
  }

  /** When a batch is written through: when 100 entries or more are pending, or three seconds have passed since
      the last flush; until then the table does not change.  An empty batch does nothing. */
  lemma BatchIsFlushedWhen(s: State, entries: seq<Entry>, now: int)
    requires entries != []
    ensures var n := Step(s, BatchUpsert(entries), now).0;
            if |s.pending| + |entries| >= 100 || now - s.lastFlush >= 3
            then n.pending == [] && n.lastFlush == now
            else n == State(s.table, s.pending + entries, s.lastFlush)
    ensures Step(s, BatchUpsert([]), now).0 == s
  {
  }
}
