/**
 Reconciling the pointer index with a working-tree snapshot.  The tables awm_pointers and
 awm_pointer_candidates are maps from their unique keys to rows, and each SQL statement is its
 set transformer.  The SQLite store updates path by path in a loop
 (internal/adapters/sqlite/repository.go), the Postgres store joins with the whole snapshot at
 once and normalizes the paths once more (internal/adapters/postgres/repository.go, queries.go).
 */
module PointerSync {
  import opened Core
  import opened Wrappers
  import opened Strings
  import Paths

  datatype RowKey = RowKey(project: string, key: string)

  /** The label, description and tags of a row, the tags as one text. */
  datatype Text = Text(title: string, description: string, tags: string)

  /** One row of awm_pointers. */
  datatype Pointer = Pointer(
    path: string, isRule: bool, text: Text,
    hash: Option<string>, stale: bool, staleAt: Option<int>, updatedAt: int)

  datatype Candidate = Candidate(hash: string, seenAt: int)

  type Pointers = map<RowKey, Pointer>
  type Candidates = map<RowKey, Candidate>

  datatype Store = Store(pointers: Pointers, candidates: Candidates)

  datatype Mode = Changed | Full | WorkingTree
  /** A sync as it is asked for, and as the stores run it. */
  datatype RawInput = RawInput(project: string, mode: string, insertNew: bool, paths: seq<SyncPath>)
  datatype Input = Input(project: string, mode: Mode, insertNew: bool, paths: seq<SyncPath>)
  datatype Counts = Counts(deletedMarkedStale: nat, markedStale: nat, updated: nat, newCandidates: nat)

  // ---------------------------------------------------------------- the input

  /** The loop of NormalizeSyncApplyInput: present entries win over deletions, later ones over earlier. */
  function FoldPaths(paths: seq<SyncPath>): Result<map<string, SyncPath>, string> {
    if paths == [] then Ok(map[])
    else
      var raw := paths[|paths| - 1];
      var rest := FoldPaths(paths[..|paths| - 1]);
      var path := Paths.NormalizeRepo(raw.path);
      if rest.Err? || path == "" then rest
      else if raw.deleted then
        if path in rest.value && !rest.value[path].deleted then rest
        else Ok(rest.value[path := SyncPath(path, "", true)])
      else if Trim(raw.hash) == "" then Err("content_hash is required")
      else Ok(rest.value[path := SyncPath(path, Trim(raw.hash), false)])
  }

  function KeysOf(paths: seq<SyncPath>): seq<string> {
    if paths == [] then []
    else
      var rest := KeysOf(paths[..|paths| - 1]);
      var path := Paths.NormalizeRepo(paths[|paths| - 1].path);
      if path == "" then rest else rest + [path]
  }

  function ParseMode(text: string): Option<Mode> {
    var mode := Trim(text);
    if mode == "" || mode == "changed" then Some(Changed)
    else if mode == "full" then Some(Full)
    else if mode == "working_tree" then Some(WorkingTree)
    else None
  }

  /** The path of an entry as it is looked up. */
  function KeyAt(paths: seq<SyncPath>, i: nat): string
    requires i < |paths|
  {
    Paths.NormalizeRepo(paths[i].path)
  }

  /** NormalizeSyncApplyInput */
  function NormalizeInput(input: RawInput): Result<Input, string> {
    var project := Trim(input.project);
    var mode := ParseMode(input.mode);
    var folded := FoldPaths(input.paths);
    if project == "" then Err("project_id is required")
    else if mode.None? then Err("mode must be changed|full|working_tree")
    else if folded.Err? then Err(folded.error)
    else
      FoldPathsKeys(input.paths);
      var keys := SortStrings(KeysOf(input.paths));
      assert forall i :: 0 <= i < |keys| ==> keys[i] in Elements(keys);
      Ok(Input(project, mode.value, input.insertNew,
               seq(|keys|, i requires 0 <= i < |keys| && keys[i] in folded.value => folded.value[keys[i]])))
  }

  /** A path as the stores keep it. */
  ghost predicate Stored(path: string) {
    path != "" && exists raw :: path == Paths.NormalizeRepo(raw)
  }

  ghost predicate WellFormedEntry(e: SyncPath) {
    Stored(e.path) && if e.deleted then e.hash == "" else e.hash != "" && Trimmed(e.hash)
  }

  /** What normalization guarantees: stored paths, each once, and a hash on every present one. */
  ghost predicate WellFormed(input: Input) {
    && (forall i :: 0 <= i < |input.paths| ==> WellFormedEntry(input.paths[i]))
    && (forall i, j :: 0 <= i < j < |input.paths| ==> input.paths[i].path != input.paths[j].path)
  }

  lemma {:induction false} FoldPathsKeys(paths: seq<SyncPath>)
    requires FoldPaths(paths).Ok?
    ensures FoldPaths(paths).value.Keys == Elements(KeysOf(paths))
    ensures forall p :: p in FoldPaths(paths).value ==>
                          FoldPaths(paths).value[p].path == p && WellFormedEntry(FoldPaths(paths).value[p])
  {
    hide Trim, Paths.NormalizeRepo, Elements;
    if paths == [] {
      ElementsEmpty([]);
    } else {
      var n := |paths| - 1;
      FoldPathsKeys(paths[..n]);
      ElementsAppend(KeysOf(paths[..n]), Paths.NormalizeRepo(paths[n].path));
      TrimShape(paths[n].hash);
    }
  }

  lemma NormalizeInputWellFormed(input: RawInput)
    requires NormalizeInput(input).Ok?
    ensures WellFormed(NormalizeInput(input).value)
  {
    FoldPathsKeys(input.paths);
    var keys := SortStrings(KeysOf(input.paths));
    var out := NormalizeInput(input).value;
    var folded := FoldPaths(input.paths).value;
    forall i | 0 <= i < |out.paths|
      ensures out.paths[i].path == keys[i] && WellFormedEntry(out.paths[i])
    {
      assert keys[i] in Elements(keys);
      assert out.paths[i] == folded[keys[i]];
    }
    forall i, j | 0 <= i < j < |keys|
      ensures keys[i] != keys[j]
    {
      LessTotal(keys[i], keys[j]);
    }
  }

  // ---------------------------------------------------------------- the statements

  predicate Live(t: Pointers, project: string, k: RowKey) {
    k in t && k.project == project && !t[k].stale
  }

  function MarkStale(t: Pointers, hit: set<RowKey>, now: int): Pointers {
    map k | k in t :: if k in hit then t[k].(stale := true, staleAt := Some(now), updatedAt := now) else t[k]
  }

  /** WHERE project_id = ? AND is_stale = 0 AND path IN (...) */
  function LiveIn(t: Pointers, project: string, paths: set<string>): set<RowKey> {
    set k | k in t && Live(t, project, k) && t[k].path in paths
  }

  /** WHERE project_id = ? AND is_stale = 0 AND path NOT IN (...) */
  function LiveOutside(t: Pointers, project: string, paths: set<string>): set<RowKey> {
    set k | k in t && Live(t, project, k) && t[k].path !in paths
  }

  function Refreshed(row: Pointer, hash: string, now: int): Pointer {
    row.(hash := Some(hash), stale := false, staleAt := None, updatedAt := now)
  }

  /** SQLite: is_stale = 1 OR IFNULL(content_hash, '') <> ? */
  predicate DiffersIfNull(row: Pointer, hash: string) {
    row.stale || (if row.hash.Some? then row.hash.value else "") != hash
  }

  /** Postgres: is_stale = TRUE OR content_hash IS DISTINCT FROM ... */
  predicate IsDistinct(row: Pointer, hash: string) {
    row.stale || row.hash != Some(hash)
  }

  function RefreshHits(t: Pointers, project: string, path: string, hash: string): set<RowKey> {
    set k | k in t && k.project == project && t[k].path == path && DiffersIfNull(t[k], hash)
  }

  function RefreshOne(t: Pointers, hit: set<RowKey>, hash: string, now: int): Pointers {
    map k | k in t :: if k in hit then Refreshed(t[k], hash, now) else t[k]
  }

  function JoinHits(t: Pointers, project: string, sync: map<string, string>): set<RowKey> {
    set k | k in t && k.project == project && t[k].path in sync && IsDistinct(t[k], sync[t[k].path])
  }

  function RefreshJoin(t: Pointers, project: string, sync: map<string, string>, now: int): Pointers {
    map k | k in t ::
      if k.project == project && t[k].path in sync && IsDistinct(t[k], sync[t[k].path])
      then Refreshed(t[k], sync[t[k].path], now) else t[k]
  }

  predicate Indexed(t: Pointers, project: string, path: string) {
    exists k :: k in t && k.project == project && t[k].path == path
  }

  function NewPaths(s: Store, project: string, sync: map<string, string>): set<string> {
    set path | path in sync && !Indexed(s.pointers, project, path) && RowKey(project, path) !in s.candidates
  }

  /** INSERT ... ON CONFLICT (project_id, path) DO NOTHING for every path without a pointer. */
  function InsertJoin(s: Store, project: string, sync: map<string, string>, now: int): Candidates {
    var added := RowKeys(project, NewPaths(s, project, sync));
    map k | k in s.candidates.Keys + added :: if k in s.candidates then s.candidates[k] else Candidate(sync[k.key], now)
  }

  function RowKeys(project: string, keys: set<string>): (rows: set<RowKey>)
    ensures forall k :: k in rows <==> k.project == project && k.key in keys
  {
    set key | key in keys :: RowKey(project, key)
  }

  // ---------------------------------------------------------------- the reconciliation, as a whole

  function DeletedPaths(paths: seq<SyncPath>): set<string> {
    set i | 0 <= i < |paths| && paths[i].deleted :: paths[i].path
  }

  function PresentPaths(paths: seq<SyncPath>): map<string, string> {
    if paths == [] then map[]
    else
      var last := paths[|paths| - 1];
      var rest := PresentPaths(paths[..|paths| - 1]);
      if last.deleted then rest else rest[last.path := last.hash]
  }

  /** The three pointer statements and the candidate insert for given path sets. */
  function Reconcile(s: Store, n: Input, deleted: set<string>, sync: map<string, string>, now: int): (Store, Counts) {
    var gone := LiveIn(s.pointers, n.project, deleted);
    var t1 := MarkStale(s.pointers, gone, now);
    var missing := if n.mode == Full then LiveOutside(t1, n.project, sync.Keys) else {};
    var t2 := MarkStale(t1, missing, now);
    var t3 := RefreshJoin(t2, n.project, sync, now);
    var s3 := Store(t3, s.candidates);
    if n.insertNew
    then (Store(t3, InsertJoin(s3, n.project, sync, now)),
          Counts(|gone|, |missing|, |JoinHits(t2, n.project, sync)|, |NewPaths(s3, n.project, sync)|))
    else (s3, Counts(|gone|, |missing|, |JoinHits(t2, n.project, sync)|, 0))
  }

  function Applied(s: Store, n: Input, now: int): (Store, Counts) {
    Reconcile(s, n, DeletedPaths(n.paths), PresentPaths(n.paths), now)
  }

  lemma {:induction false} PresentPathsMeaning(paths: seq<SyncPath>)
    requires forall i, j :: 0 <= i < j < |paths| ==> paths[i].path != paths[j].path
    ensures PresentPaths(paths).Keys == set i | 0 <= i < |paths| && !paths[i].deleted :: paths[i].path
    ensures forall i :: 0 <= i < |paths| && !paths[i].deleted ==>
                          paths[i].path in PresentPaths(paths) && PresentPaths(paths)[paths[i].path] == paths[i].hash
  {
    if paths != [] {
      var n := |paths| - 1;
      var front := paths[..n];
      PresentPathsMeaning(front);
      forall i | 0 <= i < |paths| && !paths[i].deleted
        ensures paths[i].path in PresentPaths(paths) && PresentPaths(paths)[paths[i].path] == paths[i].hash
      {
        if i < n {
          assert front[i] == paths[i];
          assert paths[i].path != paths[n].path;
        }
      }
      forall p | p in PresentPaths(paths)
        ensures exists i :: 0 <= i < |paths| && !paths[i].deleted && paths[i].path == p
      {
        if p in PresentPaths(front) {
          var i :| 0 <= i < |front| && !front[i].deleted && front[i].path == p;
          assert paths[i] == front[i];
        } else {
          assert paths[n].path == p;
        }
      }
    }
  }

  /** Facts about the two path sets of a well-formed input. */
  lemma InputSets(n: Input)
    requires WellFormed(n)
    ensures DeletedPaths(n.paths) !! PresentPaths(n.paths).Keys
    ensures forall p :: p in PresentPaths(n.paths) ==> PresentPaths(n.paths)[p] != ""
  {
    PresentPathsMeaning(n.paths);
    var present := PresentPaths(n.paths);
    forall p | p in present
      ensures present[p] != "" && p !in DeletedPaths(n.paths)
    {
      var i :| 0 <= i < |n.paths| && !n.paths[i].deleted && n.paths[i].path == p;
      assert WellFormedEntry(n.paths[i]);
    }
  }

  // ---------------------------------------------------------------- SQLite: one statement per path

  lemma RefreshStep(t: Pointers, project: string, sync: map<string, string>, path: string, hash: string, now: int)
    requires path !in sync && hash != ""
    ensures var u := RefreshJoin(t, project, sync, now);
            var hit := RefreshHits(u, project, path, hash);
            && RefreshOne(u, hit, hash, now) == RefreshJoin(t, project, sync[path := hash], now)
            && JoinHits(t, project, sync[path := hash]) == JoinHits(t, project, sync) + hit
            && JoinHits(t, project, sync) !! hit
  {
    var u := RefreshJoin(t, project, sync, now);
    var hit := RefreshHits(u, project, path, hash);
    forall k | k in t
      ensures k in hit <==> k.project == project && t[k].path == path && IsDistinct(t[k], hash)
    {
    }
    assert RefreshOne(u, hit, hash, now) == RefreshJoin(t, project, sync[path := hash], now);
  }

  lemma InsertStep(s: Store, project: string, sync: map<string, string>, path: string, hash: string, now: int)
    requires path !in sync
    ensures var c := InsertJoin(s, project, sync, now);
            var isNew := !Indexed(s.pointers, project, path) && RowKey(project, path) !in c;
            && InsertJoin(s, project, sync[path := hash], now)
               == (if isNew then c[RowKey(project, path) := Candidate(hash, now)] else c)
            && NewPaths(s, project, sync[path := hash]) == NewPaths(s, project, sync) + (if isNew then {path} else {})
            && path !in NewPaths(s, project, sync)
  {
    hide Indexed, NewPaths, InsertJoin;
    NewPathsStep(s, project, sync, path, hash);
    InsertJoinKeys(s, project, sync, path, now);
    InsertJoinStep(s, project, sync, path, hash, now);
  }

  lemma NewPathsStep(s: Store, project: string, sync: map<string, string>, path: string, hash: string)
    requires path !in sync
    ensures var isNew := !Indexed(s.pointers, project, path) && RowKey(project, path) !in s.candidates;
            NewPaths(s, project, sync[path := hash]) == NewPaths(s, project, sync) + (if isNew then {path} else {})
    ensures path !in NewPaths(s, project, sync)
  {
    hide Indexed;
  }

  lemma InsertJoinKeys(s: Store, project: string, sync: map<string, string>, path: string, now: int)
    requires path !in sync
    ensures RowKey(project, path) in InsertJoin(s, project, sync, now) <==> RowKey(project, path) in s.candidates
  {
    hide Indexed;
  }

  lemma InsertJoinStep(s: Store, project: string, sync: map<string, string>, path: string, hash: string, now: int)
    requires path !in sync
    ensures var isNew := !Indexed(s.pointers, project, path) && RowKey(project, path) !in s.candidates;
            var c := InsertJoin(s, project, sync, now);
            InsertJoin(s, project, sync[path := hash], now) == if isNew then c[RowKey(project, path) := Candidate(hash, now)] else c
  {
    hide Indexed, NewPaths, RowKeys;
    NewPathsStep(s, project, sync, path, hash);
    var news, news' := NewPaths(s, project, sync), NewPaths(s, project, sync[path := hash]);
    var key := RowKey(project, path);
    assert forall k :: k in RowKeys(project, news') ==> k.key in news' && k.project == project;
    assert forall k :: k in RowKeys(project, news) ==> k.key in news && k.project == project;
    NewPathsSynced(s, project, sync);
    if news' == news {
      assert InsertJoin(s, project, sync[path := hash], now) == InsertJoin(s, project, sync, now);
    } else {
      assert RowKeys(project, news') == RowKeys(project, news) + {key};
      assert InsertJoin(s, project, sync[path := hash], now) == InsertJoin(s, project, sync, now)[key := Candidate(hash, now)];
    }
  }

  lemma NewPathsSynced(s: Store, project: string, sync: map<string, string>)
    ensures NewPaths(s, project, sync) <= sync.Keys
  {
    hide Indexed;
  }

  class SqliteRepository {
    var pointers: Pointers
    var candidates: Candidates

    ghost function Abstract(): Store
      reads this
    {
      Store(pointers, candidates)
    }

    method ApplySync(input: RawInput, now: int) returns (result: Result<Counts, string>)
      modifies this
      ensures NormalizeInput(input).Err? ==> result.Err? && Abstract() == old(Abstract())
      ensures NormalizeInput(input).Ok? ==>
                result.Ok? && (Abstract(), result.value) == Applied(old(Abstract()), NormalizeInput(input).value, now)
    {
      hide NormalizeInput;
      var normalized := NormalizeInput(input);
      if normalized.Err? {
        return Err(normalized.error);
      }
      var n := normalized.value;
      NormalizeInputWellFormed(input);
      var deletedPaths, presentRows := SplitPaths(n);
      var out := ApplyRows(n, deletedPaths, presentRows, now);
      return Ok(out);
    }

    /** The statements of the transaction, in their order. */
    method ApplyRows(n: Input, deletedPaths: set<string>, presentRows: seq<SyncPath>, now: int) returns (out: Counts)
      requires PresentRows(presentRows)
      modifies this
      ensures (Abstract(), out) == Reconcile(old(Abstract()), n, deletedPaths, PresentPaths(presentRows), now)
    {
      out := Counts(0, 0, 0, 0);
      if deletedPaths != {} {
        var gone := LiveIn(pointers, n.project, deletedPaths);
        pointers := MarkStale(pointers, gone, now);
        out := out.(deletedMarkedStale := |gone|);
      } else {
        assert LiveIn(pointers, n.project, {}) == {};
        assert MarkStale(pointers, {}, now) == pointers;
      }
      ghost var t1 := pointers;
      if n.mode == Full {
        var missing := LiveOutside(pointers, n.project, PresentPaths(presentRows).Keys);
        pointers := MarkStale(pointers, missing, now);
        out := out.(markedStale := |missing|);
      } else {
        assert MarkStale(t1, {}, now) == t1;
      }
      var updated := RefreshRows(n.project, presentRows, now);
      out := out.(updated := updated);
      if n.insertNew {
        var inserted := InsertRows(n.project, presentRows, now);
        out := out.(newCandidates := inserted);
      }
    }

    /** One UPDATE per present path. */
    method RefreshRows(project: string, rows: seq<SyncPath>, now: int) returns (updated: nat)
      requires PresentRows(rows)
      modifies this`pointers
      ensures pointers == RefreshJoin(old(pointers), project, PresentPaths(rows), now)
      ensures updated == |JoinHits(old(pointers), project, PresentPaths(rows))|
    {
      hide *;
      updated := 0;
      NoRows(pointers, project, now);
      for i := 0 to |rows|
        invariant pointers == RefreshJoin(old(pointers), project, PresentPaths(rows[..i]), now)
        invariant updated == |JoinHits(old(pointers), project, PresentPaths(rows[..i]))|
      {
        var row := rows[i];
        NextRow(rows, i);
        RefreshStep(old(pointers), project, PresentPaths(rows[..i]), row.path, row.hash, now);
        var hit := RefreshHits(pointers, project, row.path, row.hash);
        pointers := RefreshOne(pointers, hit, row.hash, now);
        updated := updated + |hit|;
      }
      assert rows[..|rows|] == rows;
    }

    /** One INSERT OR IGNORE per present path. */
    method InsertRows(project: string, rows: seq<SyncPath>, now: int) returns (inserted: nat)
      requires PresentRows(rows)
      modifies this`candidates
      ensures candidates == InsertJoin(old(Abstract()), project, PresentPaths(rows), now)
      ensures inserted == |NewPaths(old(Abstract()), project, PresentPaths(rows))|
    {
      hide NewPaths, InsertJoin, Indexed;
      inserted := 0;
      ghost var s := Abstract();
      NoInserts(s, project, now);
      for i := 0 to |rows|
        invariant candidates == InsertJoin(s, project, PresentPaths(rows[..i]), now)
        invariant inserted == |NewPaths(s, project, PresentPaths(rows[..i]))|
      {
        var row := rows[i];
        NextRow(rows, i);
        InsertStep(s, project, PresentPaths(rows[..i]), row.path, row.hash, now);
        if !Indexed(pointers, project, row.path) && RowKey(project, row.path) !in candidates {
          candidates := candidates[RowKey(project, row.path) := Candidate(row.hash, now)];
          inserted := inserted + 1;
        }
      }
      assert rows[..|rows|] == rows;
    }
  }

  lemma NoRows(t: Pointers, project: string, now: int)
    ensures PresentPaths([]) == map[] && RefreshJoin(t, project, map[], now) == t && JoinHits(t, project, map[]) == {}
    ensures forall rows: seq<SyncPath> :: rows[..0] == []
  {
  }

  lemma NoInserts(s: Store, project: string, now: int)
    ensures InsertJoin(s, project, map[], now) == s.candidates && NewPaths(s, project, map[]) == {}
  {
    assert NewPaths(s, project, map[]) == {};
  }

  /** The rows of a snapshot that carry content: unique paths, non-empty hashes, nothing deleted. */
  ghost predicate PresentRows(rows: seq<SyncPath>) {
    && (forall i :: 0 <= i < |rows| ==> !rows[i].deleted && rows[i].hash != "")
    && (forall i, j :: 0 <= i < j < |rows| ==> rows[i].path != rows[j].path)
  }

  lemma NextRow(rows: seq<SyncPath>, i: nat)
    requires PresentRows(rows) && i < |rows|
    ensures PresentPaths(rows[..i + 1]) == PresentPaths(rows[..i])[rows[i].path := rows[i].hash]
    ensures rows[i].path !in PresentPaths(rows[..i]) && rows[i].hash != ""
  {
    assert rows[..i + 1][..i] == rows[..i];
    PresentPathsMeaning(rows[..i]);
  }

  function ContentRows(paths: seq<SyncPath>): seq<SyncPath> {
    if paths == [] then []
    else
      var rest := ContentRows(paths[..|paths| - 1]);
      if paths[|paths| - 1].deleted then rest else rest + [paths[|paths| - 1]]
  }

  lemma {:induction false} ContentRowsPresent(paths: seq<SyncPath>)
    requires forall i :: 0 <= i < |paths| && !paths[i].deleted ==> paths[i].hash != ""
    requires forall i, j :: 0 <= i < j < |paths| ==> paths[i].path != paths[j].path
    ensures PresentPaths(ContentRows(paths)) == PresentPaths(paths) && PresentRows(ContentRows(paths))
  {
    if paths != [] {
      var n := |paths| - 1;
      var front, last := paths[..n], paths[n];
      ContentRowsPresent(front);
      var rows := ContentRows(front);
      if !last.deleted {
        assert (rows + [last])[..|rows|] == rows;
        forall i | 0 <= i < |rows|
          ensures rows[i].path != last.path
        {
          ContentRowsMembers(front, i);
        }
      }
    }
  }

  /** The loop that separates deletions from content rows. */
  method SplitPaths(n: Input) returns (deletedPaths: set<string>, presentRows: seq<SyncPath>)
    requires WellFormed(n)
    ensures deletedPaths == DeletedPaths(n.paths) && presentRows == ContentRows(n.paths)
    ensures PresentPaths(presentRows) == PresentPaths(n.paths) && PresentRows(presentRows)
  {
    hide Stored, Paths.NormalizeRepo, DeletedPaths, PresentPaths, PresentRows;
    NothingDeleted();
    deletedPaths, presentRows := {}, [];
    for i := 0 to |n.paths|
      invariant deletedPaths == DeletedPaths(n.paths[..i]) && presentRows == ContentRows(n.paths[..i])
    {
      var entry := n.paths[i];
      assert n.paths[..i + 1][..i] == n.paths[..i];
      DeletedExtend(n.paths[..i], entry);
      assert n.paths[..i + 1] == n.paths[..i] + [entry];
      if entry.deleted {
        deletedPaths := deletedPaths + {entry.path};
      } else {
        presentRows := presentRows + [entry];
      }
    }
    assert n.paths[..|n.paths|] == n.paths;
    assert forall i :: 0 <= i < |n.paths| ==> WellFormedEntry(n.paths[i]);
    ContentRowsPresent(n.paths);
  }

  lemma NothingDeleted()
    ensures DeletedPaths([]) == {}
  {
  }

  lemma DeletedExtend(paths: seq<SyncPath>, e: SyncPath)
    ensures DeletedPaths(paths + [e]) == DeletedPaths(paths) + if e.deleted then {e.path} else {}
  {
    var all := paths + [e];
    assert all[|paths|] == e;
    forall p | p in DeletedPaths(paths)
      ensures p in DeletedPaths(all)
    {
      var i :| 0 <= i < |paths| && paths[i].deleted && paths[i].path == p;
      assert all[i] == paths[i];
    }
  }

  // ---------------------------------------------------------------- Postgres: one statement per snapshot

  /** normalizeSyncPaths, which the statement builders apply to paths that are normalized already. */
  function RepoSet(paths: set<string>): set<string> {
    (set p | p in paths :: Paths.NormalizeRepo(p)) - {""}
  }

  /** normalizeSyncPathRows with a required hash: the first row of a path wins. */
  function RepoRows(rows: seq<SyncPath>): Result<map<string, string>, string> {
    if rows == [] then Ok(map[])
    else
      var raw := rows[|rows| - 1];
      var rest := RepoRows(rows[..|rows| - 1]);
      var path := Paths.NormalizeRepo(raw.path);
      if rest.Err? then rest
      else if path == "" then Err("path is required")
      else if Trim(raw.hash) == "" then Err("content_hash is required")
      else if path in rest.value then rest
      else Ok(rest.value[path := Trim(raw.hash)])
  }

  /** The first row of a path, and its hash. */
  ghost predicate FirstRow(rows: seq<SyncPath>, path: string, hash: string) {
    exists i :: 0 <= i < |rows| && KeyAt(rows, i) == path && Trim(rows[i].hash) == hash
                && forall j :: 0 <= j < i ==> KeyAt(rows, j) != path
  }

  ghost predicate Unusable(row: SyncPath) {
    Paths.NormalizeRepo(row.path) == "" || Trim(row.hash) == ""
  }

  /** Rows are refused when one has no path or no hash left. */
  lemma {:induction false} RepoRowsFailExactly(rows: seq<SyncPath>)
    ensures RepoRows(rows).Err? <==> exists i :: 0 <= i < |rows| && Unusable(rows[i])
  {
    hide Trim, Paths.NormalizeRepo;
    if rows != [] {
      var n := |rows| - 1;
      RepoRowsFailExactly(rows[..n]);
      if i :| 0 <= i < n && Unusable(rows[..n][i]) {
        assert Unusable(rows[i]);
      }
      if i :| 0 <= i < n && Unusable(rows[i]) {
        assert Unusable(rows[..n][i]);
      }
      assert RepoRows(rows).Err? <==> RepoRows(rows[..n]).Err? || Unusable(rows[n]);
    }
  }

  /** Otherwise the first row of each path counts. */
  lemma {:induction false} RepoRowsExactly(rows: seq<SyncPath>, path: string)
    ensures RepoRows(rows).Ok? ==>
              forall hash :: (path in RepoRows(rows).value && RepoRows(rows).value[path] == hash) <==> FirstRow(rows, path, hash)
  {
    hide Trim, Paths.NormalizeRepo, FirstRow;
    if rows == [] {
      forall hash {
        NoFirstRow(path, hash);
      }
    } else {
      var front, last := rows[..|rows| - 1], rows[|rows| - 1];
      RepoRowsExactly(front, path);
      if RepoRows(front).Ok? && path in RepoRows(front).value {
        assert FirstRow(front, path, RepoRows(front).value[path]);
      }
      forall hash
        ensures FirstRow(rows, path, hash) <==>
                  FirstRow(front, path, hash)
                  || (Paths.NormalizeRepo(last.path) == path && Trim(last.hash) == hash && forall h :: !FirstRow(front, path, h))
      {
        FirstRowStep(rows, path, hash);
      }
    }
  }

  lemma NoFirstRow(path: string, hash: string)
    ensures !FirstRow([], path, hash)
  {
  }

  lemma FirstRowStep(rows: seq<SyncPath>, path: string, hash: string)
    requires rows != []
    ensures var front, last := rows[..|rows| - 1], rows[|rows| - 1];
            FirstRow(rows, path, hash) <==>
              FirstRow(front, path, hash)
              || (Paths.NormalizeRepo(last.path) == path && Trim(last.hash) == hash && forall h :: !FirstRow(front, path, h))
  {
    hide Trim, Paths.NormalizeRepo;
    var n := |rows| - 1;
    var front := rows[..n];
    assert KeyAt(rows, n) == Paths.NormalizeRepo(rows[n].path);
    assert forall i :: 0 <= i < n ==> front[i] == rows[i] && KeyAt(front, i) == KeyAt(rows, i);
    if i :| 0 <= i < n && KeyAt(front, i) == path {
      var l := LowestRow(front, path, i);
      assert FirstRow(front, path, Trim(front[l].hash));
      assert KeyAt(rows, l) == path && rows[l] == front[l];
    }
  }

  lemma LowestRow(rows: seq<SyncPath>, path: string, i: nat) returns (l: nat)
    requires i < |rows| && KeyAt(rows, i) == path
    ensures l < |rows| && KeyAt(rows, l) == path && forall j :: 0 <= j < l ==> KeyAt(rows, j) != path
  {
    if j :| 0 <= j < i && KeyAt(rows, j) == path {
      l := LowestRow(rows, path, j);
    } else {
      l := i;
    }
  }

  /** When the Postgres transaction refuses a normalized input. */
  lemma BatchFailsExactly(s: Store, n: Input, now: int)
    ensures BatchApplied(s, n, now).Err? <==>
              || (DeletedPaths(n.paths) != {} && forall p :: p in DeletedPaths(n.paths) ==> Paths.NormalizeRepo(p) == "")
              || exists row :: row in n.paths && !row.deleted && Unusable(row)
  {
    hide Trim, Paths.NormalizeRepo, Reconcile, DeletedPaths, Unusable, RepoRows;
    var deleted := DeletedPaths(n.paths);
    forall p | p in deleted
      ensures Paths.NormalizeRepo(p) == "" || Paths.NormalizeRepo(p) in RepoSet(deleted)
    {
    }
    var rows := ContentRows(n.paths);
    RepoRowsFailExactly(rows);
    ContentRowsAre(n.paths);
    assert (exists i :: 0 <= i < |rows| && Unusable(rows[i])) <==> exists row :: row in rows && Unusable(row);
  }

  lemma {:induction false} ContentRowsAre(paths: seq<SyncPath>)
    ensures forall row :: row in ContentRows(paths) <==> row in paths && !row.deleted
  {
    if paths != [] {
      ContentRowsAre(paths[..|paths| - 1]);
      assert paths == paths[..|paths| - 1] + [paths[|paths| - 1]];
    }
  }

  /** What the Postgres transaction does with a normalized input. */
  function BatchApplied(s: Store, n: Input, now: int): Result<(Store, Counts), string> {
    var deleted := DeletedPaths(n.paths);
    var rows := RepoRows(ContentRows(n.paths));
    if deleted != {} && RepoSet(deleted) == {} then Err("deleted paths are required")
    else if rows.Err? then Err(rows.error)
    else Ok(Reconcile(s, n, RepoSet(deleted), rows.value, now))
  }

  /** The loop of normalizeSyncPathRows. */
  method CollectRows(rows: seq<SyncPath>) returns (result: Result<map<string, string>, string>)
    ensures result == RepoRows(rows)
  {
    var byPath: map<string, string> := map[];
    var failure: Option<string> := None;
    for i := 0 to |rows|
      invariant RepoRows(rows[..i]) == if failure.Some? then Err(failure.value) else Ok(byPath)
    {
      assert rows[..i + 1][..i] == rows[..i];
      if failure.None? {
        var path := Paths.NormalizeRepo(rows[i].path);
        var hash := Trim(rows[i].hash);
        if path == "" {
          failure := Some("path is required");
        } else if hash == "" {
          failure := Some("content_hash is required");
        } else if path !in byPath {
          byPath := byPath[path := hash];
        }
      }
    }
    assert rows[..|rows|] == rows;
    return if failure.Some? then Err(failure.value) else Ok(byPath);
  }

  class PostgresRepository {
    var pointers: Pointers
    var candidates: Candidates

    ghost function Abstract(): Store
      reads this
    {
      Store(pointers, candidates)
    }

    /** The statements run on the transaction's tables; a failed one leaves the stored tables alone. */
    method ApplySync(input: RawInput, now: int) returns (result: Result<Counts, string>)
      modifies this
      ensures NormalizeInput(input).Err? ==> result.Err? && Abstract() == old(Abstract())
      ensures NormalizeInput(input).Ok? ==>
                match BatchApplied(old(Abstract()), NormalizeInput(input).value, now)
                case Err(_) => result.Err? && Abstract() == old(Abstract())
                case Ok(pair) => result == Ok(pair.1) && Abstract() == pair.0
    {
      hide NormalizeInput, RepoRows;
      var normalized := NormalizeInput(input);
      if normalized.Err? {
        return Err(normalized.error);
      }
      var n := normalized.value;
      NormalizeInputWellFormed(input);
      var deletedPaths, presentRows := SplitPaths(n);
      var rows := CollectRows(presentRows);
      result := RunBatch(n, deletedPaths, rows, now);
    }

    method RunBatch(n: Input, deletedPaths: set<string>, rows: Result<map<string, string>, string>, now: int)
      returns (result: Result<Counts, string>)
      modifies this
      ensures deletedPaths != {} && RepoSet(deletedPaths) == {} ==>
                result == Err("deleted paths are required") && Abstract() == old(Abstract())
      ensures !(deletedPaths != {} && RepoSet(deletedPaths) == {}) && rows.Err? ==>
                result == Err(rows.error) && Abstract() == old(Abstract())
      ensures !(deletedPaths != {} && RepoSet(deletedPaths) == {}) && rows.Ok? ==>
                result.Ok?
                && (Abstract(), result.value) == Reconcile(old(Abstract()), n, RepoSet(deletedPaths), rows.value, now)
    {
      hide Paths.NormalizeRepo, InsertJoin, NewPaths, RefreshJoin, JoinHits;
      var counts := Counts(0, 0, 0, 0);
      var t := pointers;
      if deletedPaths != {} {
        var paths := RepoSet(deletedPaths);
        if paths == {} {
          return Err("deleted paths are required");
        }
        var gone := LiveIn(t, n.project, paths);
        t := MarkStale(t, gone, now);
        counts := counts.(deletedMarkedStale := |gone|);
      } else {
        assert RepoSet({}) == {} && LiveIn(t, n.project, {}) == {} && MarkStale(t, {}, now) == t;
      }
      ghost var t1 := t;
      if rows.Err? {
        return Err(rows.error);
      }
      if n.mode == Full {
        var missing := LiveOutside(t, n.project, rows.value.Keys);
        t := MarkStale(t, missing, now);
        counts := counts.(markedStale := |missing|);
      } else {
        assert MarkStale(t1, {}, now) == t1;
      }
      counts := counts.(updated := |JoinHits(t, n.project, rows.value)|);
      t := RefreshJoin(t, n.project, rows.value, now);
      if n.insertNew {
        var s3 := Store(t, candidates);
        candidates := InsertJoin(s3, n.project, rows.value, now);
        counts := counts.(newCandidates := |NewPaths(s3, n.project, rows.value)|);
      }
      pointers := t;
      return Ok(counts);
    }
  }

  // ---------------------------------------------------------------- the two stores agree

  ghost predicate Tidy(n: Input) {
    forall i :: 0 <= i < |n.paths| ==> Trimmed(n.paths[i].path)
  }

  lemma StoredStable(p: string)
    requires Stored(p)
    ensures Paths.NormalizeRepo(p) == p <==> Trimmed(p)
    ensures !Trimmed(p) ==> |Paths.NormalizeRepo(p)| < |p|
  {
    var raw :| p == Paths.NormalizeRepo(raw);
    Paths.NormalizeRepoStableExactly(raw);
  }

  lemma {:induction false} ContentRowsMembers(paths: seq<SyncPath>, i: nat)
    requires i < |ContentRows(paths)|
    ensures exists j :: 0 <= j < |paths| && paths[j] == ContentRows(paths)[i] && !paths[j].deleted
  {
    var n := |paths| - 1;
    if i < |ContentRows(paths[..n])| {
      ContentRowsMembers(paths[..n], i);
      var j :| 0 <= j < n && paths[..n][j] == ContentRows(paths[..n])[i] && !paths[..n][j].deleted;
      assert paths[j] == ContentRows(paths)[i];
    } else {
      assert paths[n] == ContentRows(paths)[i];
    }
  }

  lemma {:induction false} RepoRowsTidy(paths: seq<SyncPath>)
    requires forall i :: 0 <= i < |paths| ==> WellFormedEntry(paths[i]) && Trimmed(paths[i].path)
    requires forall i, j :: 0 <= i < j < |paths| ==> paths[i].path != paths[j].path
    ensures RepoRows(ContentRows(paths)) == Ok(PresentPaths(paths))
  {
    if paths != [] {
      var n := |paths| - 1;
      var front, last := paths[..n], paths[n];
      RepoRowsTidy(front);
      assert WellFormedEntry(last);
      StoredStable(last.path);
      TrimShape(last.hash);
      PresentPathsMeaning(front);
      var rows := ContentRows(front);
      assert (rows + [last])[..|rows|] == rows;
    }
  }

  /** For tidy paths the batch statements and the row loops make the same tables and counts. */
  lemma BackendsAgree(n: Input, s: Store, now: int)
    requires WellFormed(n) && Tidy(n)
    ensures BatchApplied(s, n, now) == Ok(Applied(s, n, now))
  {
    RepoRowsTidy(n.paths);
    var deleted := DeletedPaths(n.paths);
    forall p | p in deleted
      ensures Paths.NormalizeRepo(p) == p && p != ""
    {
      var i :| 0 <= i < |n.paths| && n.paths[i].deleted && n.paths[i].path == p;
      assert WellFormedEntry(n.paths[i]);
      StoredStable(p);
    }
    assert RepoSet(deleted) == deleted;
  }

  lemma {:induction false} LongestUntidy(paths: seq<SyncPath>) returns (i: nat)
    requires exists j :: 0 <= j < |paths| && !Trimmed(paths[j].path)
    ensures i < |paths| && !Trimmed(paths[i].path)
    ensures forall j :: 0 <= j < |paths| && !Trimmed(paths[j].path) ==> |paths[j].path| <= |paths[i].path|
  {
    var n := |paths| - 1;
    if j :| 0 <= j < n && !Trimmed(paths[j].path) {
      assert !Trimmed(paths[..n][j].path);
      i := LongestUntidy(paths[..n]);
      assert forall j :: 0 <= j < n ==> paths[..n][j] == paths[j];
      if !Trimmed(paths[n].path) && |paths[n].path| > |paths[i].path| {
        i := n;
      }
    } else {
      i := n;
    }
  }

  /** No path of the input is renormalized to its longest untidy one. */
  lemma NothingMapsToLongest(n: Input, i: nat, j: nat)
    requires WellFormed(n) && i < |n.paths| && j < |n.paths|
    requires !Trimmed(n.paths[i].path)
    requires forall j :: 0 <= j < |n.paths| && !Trimmed(n.paths[j].path) ==> |n.paths[j].path| <= |n.paths[i].path|
    ensures Paths.NormalizeRepo(n.paths[j].path) != n.paths[i].path
  {
    assert WellFormedEntry(n.paths[j]);
    StoredStable(n.paths[j].path);
  }

  lemma {:induction false} RepoRowsKeys(rows: seq<SyncPath>, p: string)
    requires RepoRows(rows).Ok? && p in RepoRows(rows).value
    ensures exists i :: 0 <= i < |rows| && Paths.NormalizeRepo(rows[i].path) == p
  {
    var n := |rows| - 1;
    if Paths.NormalizeRepo(rows[n].path) != p {
      RepoRowsKeys(rows[..n], p);
      var i :| 0 <= i < n && Paths.NormalizeRepo(rows[..n][i].path) == p;
      assert rows[..n][i] == rows[i];
    }
  }

  /** With an untidy path, a one-row table already tells the two stores apart. */
  lemma BackendsDiffer(n: Input) returns (s: Store)
    requires WellFormed(n) && !Tidy(n)
    ensures BatchApplied(s, n, 0) != Ok(Applied(s, n, 0))
  {
    hide Paths.NormalizeRepo;
    var i := LongestUntidy(n.paths);
    var p := n.paths[i].path;
    var k := RowKey(n.project, "k");
    s := Store(map[k := Pointer(p, false, Text("", "", ""), None, false, None, 0)], map[]);
    forall j | 0 <= j < |n.paths|
      ensures Paths.NormalizeRepo(n.paths[j].path) != p
    {
      NothingMapsToLongest(n, i, j);
    }
    InputSets(n);
    PresentPathsMeaning(n.paths);
    var batch := BatchApplied(s, n, 0);
    if batch.Ok? {
      var rows := ContentRows(n.paths);
      if p in RepoRows(rows).value {
        RepoRowsKeys(rows, p);
        var r :| 0 <= r < |rows| && Paths.NormalizeRepo(rows[r].path) == p;
        ContentRowsMembers(n.paths, r);
        assert false;
      }
      assert p !in RepoSet(DeletedPaths(n.paths));
      WitnessRow(s, k, n, RepoSet(DeletedPaths(n.paths)), RepoRows(rows).value, DeletedPaths(n.paths), PresentPaths(n.paths));
    }
  }

  lemma WitnessRow(s: Store, k: RowKey, n: Input, deleted: set<string>, sync: map<string, string>,
                   deleted': set<string>, sync': map<string, string>)
    requires k.project == n.project && s.pointers.Keys == {k}
    requires !s.pointers[k].stale && s.pointers[k].hash == None
    requires var p := s.pointers[k].path;
             p !in deleted && p !in sync && (p in deleted' <==> p !in sync')
    ensures Reconcile(s, n, deleted, sync, 0) != Reconcile(s, n, deleted', sync', 0)
  {
    var p := s.pointers[k].path;
    var one, two := Reconcile(s, n, deleted, sync, 0), Reconcile(s, n, deleted', sync', 0);
    assert LiveIn(s.pointers, n.project, deleted) == {};
    if p in deleted' {
      assert k in LiveIn(s.pointers, n.project, deleted');
      assert two.1.deletedMarkedStale != 0;
    } else {
      assert one.0.pointers[k].hash == None;
      assert two.0.pointers[k].hash == Some(sync'[p]);
    }
  }

  /** Such inputs exist: a changed file named "a " in a snapshot that spells it "a /" keeps its space. */
  lemma UntidyInput() returns (input: RawInput)
    ensures NormalizeInput(input).Ok? && WellFormed(NormalizeInput(input).value) && !Tidy(NormalizeInput(input).value)
  {
    hide Paths.Normalize, Paths.NormalizeRepo, Paths.Plain, WellFormed, Trim;
    input := RawInput("p", "", false, [SyncPath("a /", "h", false)]);
    Paths.TrailingSpaceSurvives();
    Paths.NormalizersAgree("a /");
    PlainTexts();
    assert input.paths[..0] == [];
    assert FoldPaths(input.paths) == Ok(map["a " := SyncPath("a ", "h", false)]);
    assert KeysOf(input.paths) == ["a "];
    assert Elements(["a "]) == {"a "};
    NormalizeInputWellFormed(input);
    var keys := SortStrings(["a "]);
    ElementsEmpty(keys);
    assert keys[0] in Elements(keys);
    assert !Trimmed("a ") by { assert "a "[1] == ' '; }
    assert NormalizeInput(input).value.paths[0].path == "a ";
  }

  lemma PlainTexts()
    ensures Trim("p") == "p" && Trim("h") == "h" && Trim("") == ""
  {
    TrimShape("");
    TrimShape("p");
    TrimShape("h");
  }

  /** The two stores agree on every table exactly when no path keeps a space at its ends. */
  lemma BackendsAgreeExactly(n: Input)
    requires WellFormed(n)
    ensures Tidy(n) <==> forall s, now :: BatchApplied(s, n, now) == Ok(Applied(s, n, now))
  {
    if Tidy(n) {
      forall s, now
        ensures BatchApplied(s, n, now) == Ok(Applied(s, n, now))
      {
        BackendsAgree(n, s, now);
      }
    } else {
      var s := BackendsDiffer(n);
    }
  }

  // ---------------------------------------------------------------- what a sync leaves behind

  /** Rows whose recorded hash or staleness differ between two tables. */
  function ChangedRows(t: Pointers, t': Pointers): set<RowKey> {
    set k | k in t && k in t' && (t[k].hash != t'[k].hash || t[k].stale != t'[k].stale)
  }

  /** What a sync with these path sets makes of one row. */
  function RowAfter(row: Pointer, deleted: set<string>, sync: map<string, string>, full: bool, now: int): Pointer {
    if row.path in sync then if IsDistinct(row, sync[row.path]) then Refreshed(row, sync[row.path], now) else row
    else if !row.stale && (full || row.path in deleted) then row.(stale := true, staleAt := Some(now), updatedAt := now)
    else row
  }

  function StaleIf(row: Pointer, hit: bool, now: int): Pointer {
    if hit then row.(stale := true, staleAt := Some(now), updatedAt := now) else row
  }

  lemma ReconcileRows(s: Store, n: Input, deleted: set<string>, sync: map<string, string>, now: int)
    requires deleted !! sync.Keys
    ensures Reconcile(s, n, deleted, sync, now).0.pointers
            == map k | k in s.pointers ::
                 if k.project == n.project then RowAfter(s.pointers[k], deleted, sync, n.mode == Full, now)
                 else s.pointers[k]
  {
    hide InsertJoin, RowAfter, IsDistinct, NewPaths, JoinHits;
    var t, full := s.pointers, n.mode == Full;
    var t1 := MarkStale(t, LiveIn(t, n.project, deleted), now);
    var t2 := MarkStale(t1, if full then LiveOutside(t1, n.project, sync.Keys) else {}, now);
    var t3 := RefreshJoin(t2, n.project, sync, now);
    forall k | k in t
      ensures t3[k] == if k.project == n.project then RowAfter(t[k], deleted, sync, full, now) else t[k]
    {
      var mine := k.project == n.project;
      assert t1[k] == StaleIf(t[k], mine && !t[k].stale && t[k].path in deleted, now);
      assert t2[k] == StaleIf(t1[k], mine && full && !t1[k].stale && t1[k].path !in sync, now);
      if mine {
        RowAfterSteps(t[k], deleted, sync, full, now);
      }
    }
  }

  lemma RowAfterSteps(row: Pointer, deleted: set<string>, sync: map<string, string>, full: bool, now: int)
    requires deleted !! sync.Keys
    ensures var row1 := StaleIf(row, !row.stale && row.path in deleted, now);
            var row2 := StaleIf(row1, full && !row1.stale && row1.path !in sync, now);
            RowAfter(row, deleted, sync, full, now)
            == if row2.path in sync && IsDistinct(row2, sync[row2.path]) then Refreshed(row2, sync[row2.path], now) else row2
  {
  }

  /** How a row of the project relates to its new version when the index agrees with the snapshot. */
  ghost predicate RowAgrees(n: Input, row: Pointer, row': Pointer) {
    var present, deleted := PresentPaths(n.paths), DeletedPaths(n.paths);
    && row'.(hash := row.hash, stale := row.stale, staleAt := row.staleAt, updatedAt := row.updatedAt) == row
    && (row.path in present ==> !row'.stale && row'.hash == Some(present[row.path]))
    && (row.path in deleted ==> row'.stale && row'.hash == row.hash)
    && (n.mode == Full && !row'.stale ==> row.path in present)
    && (n.mode != Full && row.path !in present && row.path !in deleted ==> row' == row)
  }

  /** After a sync the index agrees with the snapshot; other projects and other columns do not move. */
  lemma SyncAgreement(s: Store, n: Input, now: int)
    requires WellFormed(n)
    ensures var t, t' := s.pointers, Applied(s, n, now).0.pointers;
            && t'.Keys == t.Keys
            && forall k :: k in t ==>
                 if k.project == n.project then RowAgrees(n, t[k], t'[k]) else t'[k] == t[k]
  {
    InputSets(n);
    hide WellFormed, PresentPaths, DeletedPaths, Reconcile, RowAfter, RowAgrees;
    ReconcileRows(s, n, DeletedPaths(n.paths), PresentPaths(n.paths), now);
    forall k | k in s.pointers && k.project == n.project
      ensures RowAgrees(n, s.pointers[k], Applied(s, n, now).0.pointers[k])
    {
      RowAfterAgrees(n, s.pointers[k], now);
    }
  }

  lemma RowAfterAgrees(n: Input, row: Pointer, now: int)
    requires DeletedPaths(n.paths) !! PresentPaths(n.paths).Keys
    ensures RowAgrees(n, row, RowAfter(row, DeletedPaths(n.paths), PresentPaths(n.paths), n.mode == Full, now))
  {
    hide DeletedPaths, PresentPaths;
  }

  /** The rows of a full sync that are neither deleted by name nor present. */
  function LiveElsewhere(t: Pointers, project: string, deleted: set<string>, sync: map<string, string>, full: bool): set<RowKey> {
    set k | k in t && Live(t, project, k) && full && t[k].path !in sync && t[k].path !in deleted
  }

  /** The rows the three statements hit, said of the table before the first of them. */
  lemma StatementHits(t: Pointers, project: string, deleted: set<string>, sync: map<string, string>, full: bool, now: int)
    requires deleted !! sync.Keys
    ensures var t1 := MarkStale(t, LiveIn(t, project, deleted), now);
            var missing := if full then LiveOutside(t1, project, sync.Keys) else {};
            && missing == LiveElsewhere(t, project, deleted, sync, full)
            && JoinHits(MarkStale(t1, missing, now), project, sync) == JoinHits(t, project, sync)
  {
    var t1 := MarkStale(t, LiveIn(t, project, deleted), now);
    var missing := if full then LiveOutside(t1, project, sync.Keys) else {};
    var t2 := MarkStale(t1, missing, now);
    forall k | k in t && k.project == project && t[k].path in sync
      ensures t2[k] == t[k]
    {
      assert t1[k] == t[k];
    }
  }

  /** The three pointer counts add up to the rows changed, and the fourth to the candidates gained. */
  lemma CountsAreChanges(s: Store, n: Input, now: int)
    requires WellFormed(n)
    ensures var (s', c) := Applied(s, n, now);
            && c.deletedMarkedStale + c.markedStale + c.updated == |ChangedRows(s.pointers, s'.pointers)|
            && c.newCandidates == |s'.candidates| - |s.candidates|
  {
    InputSets(n);
    hide WellFormed, PresentPaths, DeletedPaths, InsertJoin, NewPaths, RefreshJoin, MarkStale, LiveIn, LiveOutside, JoinHits, ChangedRows;
    var (s', c) := Applied(s, n, now);
    var deleted, sync, full := DeletedPaths(n.paths), PresentPaths(n.paths), n.mode == Full;
    StatementHits(s.pointers, n.project, deleted, sync, full, now);
    ReconcileRows(s, n, deleted, sync, now);
    ChangesByStatement(s.pointers, s'.pointers, n.project, deleted, sync, full, now);
    if n.insertNew {
      InsertCount(Store(s'.pointers, s.candidates), n.project, sync, now);
    }
  }

  lemma ChangesByStatement(t: Pointers, t': Pointers, project: string, deleted: set<string>, sync: map<string, string>,
                           full: bool, now: int)
    requires deleted !! sync.Keys
    requires t'.Keys == t.Keys
    requires forall k :: k in t ==>
                           t'[k] == if k.project == project then RowAfter(t[k], deleted, sync, full, now) else t[k]
    ensures |ChangedRows(t, t')| == |LiveIn(t, project, deleted)| + |LiveElsewhere(t, project, deleted, sync, full)|
                                    + |JoinHits(t, project, sync)|
  {
    hide RowAfter, IsDistinct, LiveIn, LiveElsewhere, JoinHits, ChangedRows;
    var gone, missing, hits := LiveIn(t, project, deleted), LiveElsewhere(t, project, deleted, sync, full), JoinHits(t, project, sync);
    var changed := ChangedRows(t, t');
    forall k
      ensures k in changed <==> k in gone || k in missing || k in hits
      ensures !(k in gone && k in missing) && !(k in gone && k in hits) && !(k in missing && k in hits)
    {
      Memberships(t, t', project, deleted, sync, full, k);
      if k in t {
        RowChange(t[k], deleted, sync, full, now);
      }
    }
    assert changed == gone + missing + hits;
    DisjointSizes(gone, missing, hits);
  }

  lemma Memberships(t: Pointers, t': Pointers, project: string, deleted: set<string>, sync: map<string, string>,
                    full: bool, k: RowKey)
    requires t'.Keys == t.Keys
    ensures k in LiveIn(t, project, deleted) <==> k in t && Live(t, project, k) && t[k].path in deleted
    ensures k in LiveElsewhere(t, project, deleted, sync, full)
            <==> k in t && Live(t, project, k) && full && t[k].path !in sync && t[k].path !in deleted
    ensures k in JoinHits(t, project, sync)
            <==> k in t && k.project == project && t[k].path in sync && IsDistinct(t[k], sync[t[k].path])
    ensures k in ChangedRows(t, t') <==> k in t && (t[k].hash != t'[k].hash || t[k].stale != t'[k].stale)
  {
  }

  lemma RowChange(row: Pointer, deleted: set<string>, sync: map<string, string>, full: bool, now: int)
    requires deleted !! sync.Keys
    ensures var row' := RowAfter(row, deleted, sync, full, now);
            row.hash != row'.hash || row.stale != row'.stale
            <==> (!row.stale && row.path in deleted)
                 || (!row.stale && full && row.path !in sync && row.path !in deleted)
                 || (row.path in sync && IsDistinct(row, sync[row.path]))
  {
  }

  lemma DisjointSizes<T>(a: set<T>, b: set<T>, c: set<T>)
    requires a !! b && a !! c && b !! c
    ensures |a + b + c| == |a| + |b| + |c|
  {
    assert |a + b| == |a| + |b|;
    assert (a + b) !! c;
  }

  lemma InsertCount(s: Store, project: string, sync: map<string, string>, now: int)
    ensures |InsertJoin(s, project, sync, now)| == |s.candidates| + |NewPaths(s, project, sync)|
  {
    hide RowKeys, Indexed;
    var news := NewPaths(s, project, sync);
    var added := RowKeys(project, news);
    assert added !! s.candidates.Keys;
    assert InsertJoin(s, project, sync, now).Keys == s.candidates.Keys + added;
    RowKeysCount(project, news);
  }

  lemma {:induction false} RowKeysCount(project: string, keys: set<string>)
    ensures |RowKeys(project, keys)| == |keys|
  {
    if keys == {} {
      assert RowKeys(project, keys) == {};
    } else {
      var key :| key in keys;
      RowKeysCount(project, keys - {key});
      assert RowKeys(project, keys) == RowKeys(project, keys - {key}) + {RowKey(project, key)};
    }
  }

  /** A second identical sync, at any later time, changes nothing and counts nothing. */
  lemma SyncIdempotent(s: Store, n: Input, now: int, later: int)
    requires WellFormed(n)
    ensures var s' := Applied(s, n, now).0; Applied(s', n, later) == (s', Counts(0, 0, 0, 0))
  {
    InputSets(n);
    hide WellFormed, PresentPaths, DeletedPaths, InsertJoin, NewPaths;
    var deleted, sync := DeletedPaths(n.paths), PresentPaths(n.paths);
    var s' := Applied(s, n, now).0;
    ReconcileRows(s, n, deleted, sync, now);
    QuietTable(s'.pointers, n.project, deleted, sync, n.mode == Full, later);
    if n.insertNew {
      NoNewPaths(s, n, now);
      NothingToInsert(s', n.project, sync, later);
    }
  }

  ghost predicate Quiet(row: Pointer, deleted: set<string>, sync: map<string, string>, full: bool) {
    && (row.path in sync ==> !row.stale && row.hash == Some(sync[row.path]))
    && (row.path in deleted || (full && row.path !in sync) ==> row.stale)
  }

  /** No statement hits a table that already agrees with the snapshot. */
  lemma QuietTable(t: Pointers, project: string, deleted: set<string>, sync: map<string, string>, full: bool, now: int)
    requires forall k :: k in t && k.project == project ==> Quiet(t[k], deleted, sync, full)
    ensures LiveIn(t, project, deleted) == {} && MarkStale(t, {}, now) == t
    ensures full ==> LiveOutside(t, project, sync.Keys) == {}
    ensures JoinHits(t, project, sync) == {} && RefreshJoin(t, project, sync, now) == t
  {
  }

  lemma NothingToInsert(s: Store, project: string, sync: map<string, string>, now: int)
    requires NewPaths(s, project, sync) == {}
    ensures InsertJoin(s, project, sync, now) == s.candidates
  {
    assert RowKeys(project, {}) == {};
  }

  lemma NoNewPaths(s: Store, n: Input, now: int)
    requires n.insertNew
    ensures NewPaths(Applied(s, n, now).0, n.project, PresentPaths(n.paths)) == {}
  {
    var sync := PresentPaths(n.paths);
    var s' := Applied(s, n, now).0;
    var s3 := Store(s'.pointers, s.candidates);
    forall path | path in sync && !Indexed(s'.pointers, n.project, path)
      ensures RowKey(n.project, path) in s'.candidates
    {
      assert RowKey(n.project, path) in s.candidates || path in NewPaths(s3, n.project, sync);
    }
  }

  // ---------------------------------------------------------------- from the input to the index

  /** Some entry of p carries content, and this is the trimmed hash of the last that does. */
  ghost predicate PresentAs(paths: seq<SyncPath>, p: string, hash: string) {
    p != "" && exists i :: 0 <= i < |paths| && KeyAt(paths, i) == p && !paths[i].deleted && Trim(paths[i].hash) == hash
                           && forall j :: i < j < |paths| && KeyAt(paths, j) == p ==> paths[j].deleted
  }

  /** Entries of p there are, and all are deletions. */
  ghost predicate OnlyDeleted(paths: seq<SyncPath>, p: string) {
    && p != "" && (exists i :: 0 <= i < |paths| && KeyAt(paths, i) == p)
    && forall i :: 0 <= i < |paths| && KeyAt(paths, i) == p ==> paths[i].deleted
  }

  /** An entry with content but a blank hash. */
  ghost predicate HashMissing(paths: seq<SyncPath>) {
    exists i :: 0 <= i < |paths| && !paths[i].deleted && KeyAt(paths, i) != "" && Trim(paths[i].hash) == ""
  }

  lemma {:induction false} FoldFailsExactly(paths: seq<SyncPath>)
    ensures FoldPaths(paths).Err? <==> HashMissing(paths)
  {
    hide Trim, Paths.NormalizeRepo;
    if paths != [] {
      var n := |paths| - 1;
      var front := paths[..n];
      FoldFailsExactly(front);
      assert forall i :: 0 <= i < n ==> front[i] == paths[i] && KeyAt(front, i) == KeyAt(paths, i);
      if i :| 0 <= i < |paths| && !paths[i].deleted && KeyAt(paths, i) != "" && Trim(paths[i].hash) == "" {
        if i < n {
          assert front[i] == paths[i];
        }
      }
      if HashMissing(front) {
        var i :| 0 <= i < n && !front[i].deleted && KeyAt(front, i) != "" && Trim(front[i].hash) == "";
        assert paths[i] == front[i] && KeyAt(paths, i) == KeyAt(front, i);
      }
      assert KeyAt(paths, n) == Paths.NormalizeRepo(paths[n].path);
    }
  }

  lemma {:induction false} FoldExactly(paths: seq<SyncPath>, p: string)
    requires FoldPaths(paths).Ok?
    ensures var folded := FoldPaths(paths).value;
            && (forall hash :: (p in folded && !folded[p].deleted && folded[p].hash == hash) <==> PresentAs(paths, p, hash))
            && (p in folded && folded[p].deleted <==> OnlyDeleted(paths, p))
  {
    hide Trim, Paths.NormalizeRepo, PresentAs, OnlyDeleted;
    if paths == [] {
      NothingFolded(p);
    } else {
      var n := |paths| - 1;
      FoldExactly(paths[..n], p);
      forall hash {
        PresentStep(paths, p, hash);
      }
      OnlyDeletedStep(paths, p);
      var rest := FoldPaths(paths[..n]).value;
      if p in rest && !rest[p].deleted {
        assert PresentAs(paths[..n], p, rest[p].hash);
      }
    }
  }

  lemma NothingFolded(p: string)
    ensures (forall hash :: !PresentAs([], p, hash)) && !OnlyDeleted([], p)
  {
  }

  /** What the last entry changes. */
  lemma PresentStep(paths: seq<SyncPath>, p: string, hash: string)
    requires paths != []
    ensures var front, last := paths[..|paths| - 1], paths[|paths| - 1];
            PresentAs(paths, p, hash)
            <==> if Paths.NormalizeRepo(last.path) == p != "" && !last.deleted then Trim(last.hash) == hash else PresentAs(front, p, hash)
  {
    hide Trim, Paths.NormalizeRepo;
    var n := |paths| - 1;
    var front, last := paths[..n], paths[n];
    assert KeyAt(paths, n) == Paths.NormalizeRepo(last.path);
    assert forall i :: 0 <= i < n ==> front[i] == paths[i] && KeyAt(front, i) == KeyAt(paths, i);
    if PresentAs(front, p, hash) {
      var i :| 0 <= i < n && KeyAt(front, i) == p && !front[i].deleted && Trim(front[i].hash) == hash
               && forall j :: i < j < n && KeyAt(front, j) == p ==> front[j].deleted;
      assert KeyAt(paths, i) == p && paths[i] == front[i];
    }
    if PresentAs(paths, p, hash) {
      var i :| 0 <= i < |paths| && KeyAt(paths, i) == p && !paths[i].deleted && Trim(paths[i].hash) == hash
               && forall j :: i < j < |paths| && KeyAt(paths, j) == p ==> paths[j].deleted;
      assert i < n ==> KeyAt(front, i) == p && front[i] == paths[i];
    }
  }

  lemma OnlyDeletedStep(paths: seq<SyncPath>, p: string)
    requires paths != []
    ensures var front, last := paths[..|paths| - 1], paths[|paths| - 1];
            OnlyDeleted(paths, p)
            <==> if Paths.NormalizeRepo(last.path) == p != "" then last.deleted && forall hash :: !PresentAs(front, p, hash)
                 else OnlyDeleted(front, p)
  {
    hide Trim, Paths.NormalizeRepo, PresentAs;
    var n := |paths| - 1;
    var front, last := paths[..n], paths[n];
    assert KeyAt(paths, n) == Paths.NormalizeRepo(last.path);
    assert forall i :: 0 <= i < n ==> front[i] == paths[i] && KeyAt(front, i) == KeyAt(paths, i);
    if p != "" {
      NotPresentExactly(front, p);
    }
    if i :| 0 <= i < n && KeyAt(front, i) == p {
      assert KeyAt(paths, i) == p && paths[i] == front[i];
    }
  }

  lemma NotPresentExactly(paths: seq<SyncPath>, p: string)
    requires p != ""
    ensures (forall hash :: !PresentAs(paths, p, hash)) <==> (forall i :: 0 <= i < |paths| && KeyAt(paths, i) == p ==> paths[i].deleted)
  {
    hide Trim, Paths.NormalizeRepo;
    if i :| 0 <= i < |paths| && KeyAt(paths, i) == p && !paths[i].deleted {
      var l := LastContent(paths, p, i);
      assert PresentAs(paths, p, Trim(paths[l].hash));
    }
  }

  /** The last entry of p with content, at or after i. */
  lemma LastContent(paths: seq<SyncPath>, p: string, i: nat) returns (l: nat)
    requires i < |paths| && KeyAt(paths, i) == p && !paths[i].deleted
    ensures l < |paths| && KeyAt(paths, l) == p && !paths[l].deleted
    ensures forall j :: l < j < |paths| && KeyAt(paths, j) == p ==> paths[j].deleted
    decreases |paths| - i
  {
    hide Paths.NormalizeRepo;
    if j :| i < j < |paths| && KeyAt(paths, j) == p && !paths[j].deleted {
      l := LastContent(paths, p, j);
    } else {
      l := i;
    }
  }

  /** When a sync is refused, and what an accepted one amounts to. */
  lemma NormalizeInputExactly(input: RawInput)
    ensures NormalizeInput(input).Err? <==>
              Trim(input.project) == "" || Trim(input.mode) !in {"", "changed", "full", "working_tree"} || HashMissing(input.paths)
    ensures NormalizeInput(input).Ok? ==>
              var n := NormalizeInput(input).value;
              && n.project == Trim(input.project) && n.insertNew == input.insertNew
              && (n.mode == Full <==> Trim(input.mode) == "full") && (n.mode == WorkingTree <==> Trim(input.mode) == "working_tree")
              && (forall p, hash :: (p in PresentPaths(n.paths) && PresentPaths(n.paths)[p] == hash) <==> PresentAs(input.paths, p, hash))
              && (forall p :: p in DeletedPaths(n.paths) <==> OnlyDeleted(input.paths, p))
  {
    hide Trim, PresentAs, OnlyDeleted, HashMissing, FoldPaths, KeysOf;
    FoldFailsExactly(input.paths);
    if NormalizeInput(input).Ok? {
      var n, folded := NormalizeInput(input).value, FoldPaths(input.paths).value;
      NormalizeInputWellFormed(input);
      PresentPathsMeaning(n.paths);
      forall p
        ensures forall hash :: (p in PresentPaths(n.paths) && PresentPaths(n.paths)[p] == hash) <==> PresentAs(input.paths, p, hash)
        ensures p in DeletedPaths(n.paths) <==> OnlyDeleted(input.paths, p)
      {
        FoldExactly(input.paths, p);
        EntryOfPath(input, p);
      }
    }
  }

  /** The normalized list has the folded entry of p, and nothing else for p. */
  lemma EntryOfPath(input: RawInput, p: string)
    requires NormalizeInput(input).Ok?
    ensures var n, folded := NormalizeInput(input).value, FoldPaths(input.paths).value;
            && (p in PresentPaths(n.paths) <==> p in folded && !folded[p].deleted)
            && (p in PresentPaths(n.paths) ==> PresentPaths(n.paths)[p] == folded[p].hash)
            && (p in DeletedPaths(n.paths) <==> p in folded && folded[p].deleted)
  {
    hide Trim, FoldPaths, KeysOf, WellFormedEntry;
    var n, folded := NormalizeInput(input).value, FoldPaths(input.paths).value;
    NormalizeInputWellFormed(input);
    PresentPathsMeaning(n.paths);
    FoldPathsKeys(input.paths);
    var keys := SortStrings(KeysOf(input.paths));
    assert forall i :: 0 <= i < |keys| ==> keys[i] in Elements(keys);
    assert |n.paths| == |keys| && forall i :: 0 <= i < |keys| ==> n.paths[i] == folded[keys[i]] && n.paths[i].path == keys[i];
    if p in folded {
      assert p in Elements(keys);
      var i :| 0 <= i < |keys| && keys[i] == p;
      assert n.paths[i] == folded[p];
    }
  }

  /** What a sync makes of a row of its project, said of the input. */
  ghost predicate RowSynced(input: RawInput, row: Pointer, row': Pointer, now: int) {
    if exists hash :: PresentAs(input.paths, row.path, hash) then
      forall hash :: PresentAs(input.paths, row.path, hash) ==>
        row' == if !row.stale && row.hash == Some(hash) then row
                else row.(hash := Some(hash), stale := false, staleAt := None, updatedAt := now)
    else if !row.stale && (Trim(input.mode) == "full" || OnlyDeleted(input.paths, row.path)) then
      row' == row.(stale := true, staleAt := Some(now), updatedAt := now)
    else row' == row
  }

  /** A new candidate is a present path, when new ones are wanted, that no pointer of the project has. */
  ghost predicate NewCandidate(s: Store, input: RawInput, k: RowKey, c: Candidate, now: int) {
    && input.insertNew && k.project == Trim(input.project) && c.seenAt == now && PresentAs(input.paths, k.key, c.hash)
    && forall other :: other in s.pointers && other.project == k.project ==> s.pointers[other].path != k.key
  }

  /** From the input as it is given to both tables: every row and every candidate after a sync. */
  lemma SyncFromInput(s: Store, input: RawInput, now: int)
    requires NormalizeInput(input).Ok?
    ensures var s' := Applied(s, NormalizeInput(input).value, now).0;
            && s'.pointers.Keys == s.pointers.Keys
            && (forall k :: k in s.pointers ==>
                  if k.project == Trim(input.project) then RowSynced(input, s.pointers[k], s'.pointers[k], now)
                  else s'.pointers[k] == s.pointers[k])
            && (forall k :: k in s.candidates ==> k in s'.candidates && s'.candidates[k] == s.candidates[k])
            && (forall k, c :: k !in s.candidates ==>
                  (k in s'.candidates && s'.candidates[k] == c <==> NewCandidate(s, input, k, c, now)))
  {
    hide Trim, PresentAs, OnlyDeleted, NormalizeInput, PresentPaths, DeletedPaths, WellFormed, RowAfter, InsertJoin, NewPaths, MarkStale, RefreshJoin;
    var n := NormalizeInput(input).value;
    NormalizeInputWellFormed(input);
    NormalizeInputExactly(input);
    InputSets(n);
    var deleted, present := DeletedPaths(n.paths), PresentPaths(n.paths);
    ReconcileRows(s, n, deleted, present, now);
    forall k | k in s.pointers && k.project == n.project
      ensures RowSynced(input, s.pointers[k], RowAfter(s.pointers[k], deleted, present, n.mode == Full, now), now)
    {
      RowSyncedAfter(input, s.pointers[k], now);
    }
    CandidatesAfter(s, n, deleted, present, now);
    forall k, c | k !in s.candidates
      ensures var s' := Applied(s, n, now).0; k in s'.candidates && s'.candidates[k] == c <==> NewCandidate(s, input, k, c, now)
    {
      assert k.key in present && present[k.key] == c.hash <==> PresentAs(input.paths, k.key, c.hash);
    }
  }

  lemma RowSyncedAfter(input: RawInput, row: Pointer, now: int)
    requires NormalizeInput(input).Ok?
    ensures var n := NormalizeInput(input).value;
            RowSynced(input, row, RowAfter(row, DeletedPaths(n.paths), PresentPaths(n.paths), n.mode == Full, now), now)
  {
    hide Trim, PresentAs, OnlyDeleted, NormalizeInput, PresentPaths, DeletedPaths;
    NormalizeInputExactly(input);
    var present := PresentPaths(NormalizeInput(input).value.paths);
    if row.path in present {
      assert PresentAs(input.paths, row.path, present[row.path]);
    }
  }

  /** Each count by itself, said of the input: the rows, and the candidates, that it names. */
  lemma CountsFromInput(s: Store, input: RawInput, now: int)
    requires NormalizeInput(input).Ok?
    ensures var (s', c) := Applied(s, NormalizeInput(input).value, now);
            var mine := set k | k in s.pointers && k.project == Trim(input.project);
            && c.deletedMarkedStale == |set k | k in mine && !s.pointers[k].stale && OnlyDeleted(input.paths, s.pointers[k].path)|
            && c.markedStale == |set k | k in mine && MissedByFull(input, s.pointers[k])|
            && c.updated == |set k | k in mine && NeedsRefresh(input, s.pointers[k])|
            && c.newCandidates == |s'.candidates.Keys - s.candidates.Keys|
  {
    hide Trim, PresentAs, OnlyDeleted, NormalizeInput, PresentPaths, DeletedPaths, WellFormed, InsertJoin, NewPaths, MarkStale, RefreshJoin,
         MissedByFull, NeedsRefresh, LiveIn, LiveOutside, LiveElsewhere, JoinHits;
    var n := NormalizeInput(input).value;
    var t := s.pointers;
    var mine := set k | k in t && k.project == Trim(input.project);
    var deleted, sync := DeletedPaths(n.paths), PresentPaths(n.paths);
    NormalizeInputWellFormed(input);
    InputSets(n);
    NormalizeInputExactly(input);
    StatementHits(t, n.project, deleted, sync, n.mode == Full, now);
    forall k
      ensures k in LiveIn(t, n.project, deleted) <==> k in mine && !t[k].stale && OnlyDeleted(input.paths, t[k].path)
      ensures k in LiveElsewhere(t, n.project, deleted, sync, n.mode == Full) <==> k in mine && MissedByFull(input, t[k])
      ensures k in JoinHits(t, n.project, sync) <==> k in mine && NeedsRefresh(input, t[k])
    {
      Memberships(t, t, n.project, deleted, sync, n.mode == Full, k);
      if k in t {
        HitsFromInput(input, t[k]);
      }
    }
    assert LiveIn(t, n.project, deleted) == set k | k in mine && !t[k].stale && OnlyDeleted(input.paths, t[k].path);
    assert LiveElsewhere(t, n.project, deleted, sync, n.mode == Full) == set k | k in mine && MissedByFull(input, t[k]);
    assert JoinHits(t, n.project, sync) == set k | k in mine && NeedsRefresh(input, t[k]);
    CandidatesGained(s, n, now);
  }

  /** A live row that only a full sync marks stale: the input says nothing of its path. */
  ghost predicate MissedByFull(input: RawInput, row: Pointer) {
    && Trim(input.mode) == "full" && !row.stale && !OnlyDeleted(input.paths, row.path)
    && forall hash :: !PresentAs(input.paths, row.path, hash)
  }

  ghost predicate NeedsRefresh(input: RawInput, row: Pointer) {
    exists hash :: PresentAs(input.paths, row.path, hash) && (row.stale || row.hash != Some(hash))
  }

  lemma HitsFromInput(input: RawInput, row: Pointer)
    requires NormalizeInput(input).Ok?
    ensures var n := NormalizeInput(input).value;
            var deleted, sync := DeletedPaths(n.paths), PresentPaths(n.paths);
            && (MissedByFull(input, row) <==> !row.stale && n.mode == Full && row.path !in sync && row.path !in deleted)
            && (NeedsRefresh(input, row) <==> row.path in sync && IsDistinct(row, sync[row.path]))
  {
    hide Trim, PresentAs, OnlyDeleted, NormalizeInput, PresentPaths, DeletedPaths;
    NormalizeInputExactly(input);
    var sync := PresentPaths(NormalizeInput(input).value.paths);
    if row.path in sync {
      assert PresentAs(input.paths, row.path, sync[row.path]);
    }
  }

  lemma CandidatesGained(s: Store, n: Input, now: int)
    requires WellFormed(n)
    ensures var (s', c) := Applied(s, n, now); c.newCandidates == |s'.candidates.Keys - s.candidates.Keys|
  {
    hide WellFormed, PresentPaths, DeletedPaths, InsertJoin, NewPaths, RefreshJoin, MarkStale;
    InputSets(n);
    CountsAreChanges(s, n, now);
    CandidatesAfter(s, n, DeletedPaths(n.paths), PresentPaths(n.paths), now);
    var old', new' := s.candidates.Keys, Applied(s, n, now).0.candidates.Keys;
    assert new' == old' + (new' - old');
  }

  lemma CandidatesAfter(s: Store, n: Input, deleted: set<string>, sync: map<string, string>, now: int)
    requires deleted !! sync.Keys
    ensures var c' := Reconcile(s, n, deleted, sync, now).0.candidates;
            && (forall k :: k in s.candidates ==> k in c' && c'[k] == s.candidates[k])
            && (forall k :: k in c' && k !in s.candidates <==>
                  k !in s.candidates && n.insertNew && k.project == n.project && k.key in sync
                  && forall other :: other in s.pointers && other.project == k.project ==> s.pointers[other].path != k.key)
            && (forall k :: k in c' && k !in s.candidates ==> c'[k] == Candidate(sync[k.key], now))
  {
    hide MarkStale, RefreshJoin, RowAfter, JoinHits, LiveIn, LiveOutside;
    ReconcileRows(s, n, deleted, sync, now);
    var t' := Reconcile(s, n, deleted, sync, now).0.pointers;
    forall k | k in s.pointers
      ensures k in t' && t'[k].path == s.pointers[k].path
    {
      PathKept(s.pointers[k], deleted, sync, n.mode == Full, now);
    }
    forall key
      ensures Indexed(t', n.project, key) <==>
                exists other :: other in s.pointers && other.project == n.project && s.pointers[other].path == key
    {
      if other :| other in s.pointers && other.project == n.project && s.pointers[other].path == key {
        assert other in t' && t'[other].path == key;
      }
    }
  }

  lemma PathKept(row: Pointer, deleted: set<string>, sync: map<string, string>, full: bool, now: int)
    ensures RowAfter(row, deleted, sync, full, now).path == row.path
  {
  }
}
