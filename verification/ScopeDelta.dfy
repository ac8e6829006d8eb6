/**
 The closeout delta and its violations (internal/service/backend/scope_runtime.go).
 */
module ScopeDelta {
  import opened Core
  import opened Wrappers
  import opened Strings
  import opened Paths
  import Pigeonhole

  // ---------------------------------------------------------------- the delta

  /** The recorded state of every accepted path; a later entry replaces an earlier one. */
  function StatesOf(entries: seq<SyncPath>): map<string, SyncPath> {
    if entries == [] then map[]
    else
      var rest := StatesOf(entries[..|entries| - 1]);
      var last := entries[|entries| - 1];
      var path := Normalize(last.path);
      if path == "" then rest else rest[path := SyncPath(path, Trim(last.hash), last.deleted)]
  }

  /** The state of a path is that of its last entry: its hash without outer spaces, and whether it was deleted. */
  lemma {:induction false} StatesExactly(entries: seq<SyncPath>, p: string, st: SyncPath)
    ensures p in StatesOf(entries) && StatesOf(entries)[p] == st <==> p != "" && StateIs(entries, p, st)
  {
    hide Normalize, Trim, StateIs;
    if entries == [] {
      NoState(p, st);
    } else {
      StatesExactly(entries[..|entries| - 1], p, st);
      StateIsStep(entries, p, st);
    }
  }

  /** i is the last entry that normalizes to p. */
  ghost predicate LastOf(entries: seq<SyncPath>, p: string, i: int) {
    && 0 <= i < |entries| && Normalize(entries[i].path) == p
    && forall j :: i < j < |entries| ==> Normalize(entries[j].path) != p
  }

  ghost predicate StateIs(entries: seq<SyncPath>, p: string, st: SyncPath) {
    exists i :: 0 <= i < |entries| && LastOf(entries, p, i) && st == SyncPath(p, Trim(entries[i].hash), entries[i].deleted)
  }

  lemma NoState(p: string, st: SyncPath)
    ensures !StateIs([], p, st)
  {
  }

  lemma LastOfStep(entries: seq<SyncPath>, p: string, i: int)
    requires entries != []
    ensures var n := |entries| - 1;
            LastOf(entries, p, i) <==> if Normalize(entries[n].path) == p then i == n else i < n && LastOf(entries[..n], p, i)
  {
    hide Normalize;
    var front := entries[..|entries| - 1];
    assert forall j :: 0 <= j < |front| ==> front[j] == entries[j];
  }

  lemma StateIsStep(entries: seq<SyncPath>, p: string, st: SyncPath)
    requires entries != []
    ensures var last, front := entries[|entries| - 1], entries[..|entries| - 1];
            StateIs(entries, p, st)
            <==> if Normalize(last.path) == p then st == SyncPath(p, Trim(last.hash), last.deleted) else StateIs(front, p, st)
  {
    hide Normalize, Trim, LastOf;
    var n := |entries| - 1;
    if i :| 0 <= i < |entries| && LastOf(entries, p, i) && st == SyncPath(p, Trim(entries[i].hash), entries[i].deleted) {
      LastOfStep(entries, p, i);
      if Normalize(entries[n].path) != p {
        assert entries[..n][i] == entries[i];
      }
    }
    if i :| 0 <= i < n && LastOf(entries[..n], p, i) && st == SyncPath(p, Trim(entries[..n][i].hash), entries[..n][i].deleted) {
      LastOfStep(entries, p, i);
      assert entries[..n][i] == entries[i];
    }
    LastOfStep(entries, p, n);
  }

  predicate StatesEqual(a: SyncPath, b: SyncPath) {
    Normalize(a.path) == Normalize(b.path) && Trim(a.hash) == Trim(b.hash) && a.deleted == b.deleted
  }

  function Lookup(states: map<string, SyncPath>, path: string): Option<SyncPath> {
    if path in states then Some(states[path]) else None
  }

  /** The paths whose two states differ, absence being a state of its own. */
  function DeltaSet(a: map<string, SyncPath>, b: map<string, SyncPath>): set<string> {
    set p | p in a.Keys + b.Keys && Lookup(a, p) != Lookup(b, p)
  }

  /** Recorded states are normal: their own key as path and a trimmed hash. */
  ghost predicate Recorded(states: map<string, SyncPath>) {
    forall p :: p in states ==> p != "" && states[p].path == p && Trim(states[p].hash) == states[p].hash
  }

  lemma {:induction false} StatesRecorded(entries: seq<SyncPath>)
    ensures Recorded(StatesOf(entries))
  {
    if entries != [] {
      StatesRecorded(entries[..|entries| - 1]);
      TrimIdempotent(entries[|entries| - 1].hash);
    }
  }

  lemma StatesEqualIsEqual(a: SyncPath, b: SyncPath)
    requires a.path == b.path && Trim(a.hash) == a.hash && Trim(b.hash) == b.hash
    ensures StatesEqual(a, b) <==> a == b
  {
  }

  method CollectStates(entries: seq<SyncPath>) returns (byPath: map<string, SyncPath>)
    ensures byPath == StatesOf(entries) && Recorded(byPath)
  {
    hide Normalize, Trim, Recorded;
    byPath := map[];
    for i := 0 to |entries|
      invariant byPath == StatesOf(entries[..i])
    {
      assert entries[..i + 1][..i] == entries[..i];
      var path := Normalize(entries[i].path);
      if path == "" {
        continue;
      }
      byPath := byPath[path := SyncPath(path, Trim(entries[i].hash), entries[i].deleted)];
    }
    assert entries[..|entries|] == entries;
    StatesRecorded(entries);
  }

  /** diffSyncPathStates: the two map walks, then a sort. */
  method Diff(baseline: seq<SyncPath>, current: seq<SyncPath>) returns (changed: seq<string>)
    ensures StrictlySorted(changed)
    ensures Elements(changed) == DeltaSet(StatesOf(baseline), StatesOf(current))
  {
    hide Normalize, Trim, StatesEqual, StrictlySorted, StatesOf;
    var base := CollectStates(baseline);
    var now := CollectStates(current);
    changed := [];
    var seen := base.Keys;
    var todo := base.Keys;
    while todo != {}
      invariant todo <= base.Keys
      invariant Elements(changed) == set p | p in base.Keys - todo && Lookup(base, p) != Lookup(now, p)
    {
      var path :| path in todo;
      todo := todo - {path};
      ElementsAppend(changed, path);
      if path in now {
        StatesEqualIsEqual(base[path], now[path]);
      }
      if path in now && StatesEqual(base[path], now[path]) {
        continue;
      }
      changed := changed + [path];
    }
    todo := now.Keys;
    while todo != {}
      invariant todo <= now.Keys
      invariant Elements(changed) ==
                set p | p in base.Keys + (now.Keys - todo) && Lookup(base, p) != Lookup(now, p)
    {
      var path :| path in todo;
      todo := todo - {path};
      ElementsAppend(changed, path);
      if path in seen {
        continue;
      }
      changed := changed + [path];
    }
    changed := SortStrings(changed);
  }

  /** The delta is symmetric, and empty exactly between equal snapshots. */
  lemma DeltaLaws(a: map<string, SyncPath>, b: map<string, SyncPath>)
    ensures DeltaSet(a, b) == DeltaSet(b, a)
    ensures DeltaSet(a, b) == {} <==> a == b
  {
    if DeltaSet(a, b) == {} {
      forall p
        ensures Lookup(a, p) == Lookup(b, p)
      {
        assert p in DeltaSet(a, b) <==> Lookup(a, p) != Lookup(b, p);
      }
      assert forall p :: (p in a <==> Lookup(a, p).Some?) && (p in b <==> Lookup(b, p).Some?);
      assert a == b;
    }
  }

  /** Deltas compose like changes: what differs between ends differs across one of the two legs. */
  lemma DeltaTriangle(a: map<string, SyncPath>, b: map<string, SyncPath>, c: map<string, SyncPath>)
    ensures DeltaSet(a, c) <= DeltaSet(a, b) + DeltaSet(b, c)
  {
  }

  // ---------------------------------------------------------------- violations

  datatype Violation = Violation(path: string, reason: string)

  // Every reason starts with the same word, which is how the proofs know that trimming leaves something.
  const PATH := "path "
  const NOT_DETECTED := PATH + "was supplied in files_changed but was not detected in the receipt baseline delta"
  const OMITTED := PATH + "was detected in the receipt baseline delta but was omitted from files_changed"
  const OUTSIDE := PATH + "is outside effective scope"

  ghost predicate Mismatch(reliable: bool, detected: set<string>, supplied: set<string>, v: Violation) {
    && reliable && supplied != {}
    && ((v.path in supplied - detected && v.reason == NOT_DETECTED) || (v.path in detected - supplied && v.reason == OMITTED))
  }

  /** filesChangedMismatchViolations */
  method MismatchViolations(reliable: bool, detected: seq<string>, supplied: seq<string>) returns (violations: seq<Violation>)
    ensures forall v :: v in violations <==> Mismatch(reliable, NormalizedSet(detected), NormalizedSet(supplied), v)
    ensures forall i, j :: 0 <= i < j < |violations| ==> (violations[i].reason == OMITTED ==> violations[j].reason == OMITTED)
  {
    hide NormalizedSet, StrictlySorted, NormalizePathsSpec;
    if !reliable {
      return [];
    }
    var detectedPaths := NormalizePaths(detected);
    var suppliedPaths := NormalizePaths(supplied);
    ElementsEmpty(suppliedPaths);
    if suppliedPaths == [] {
      return [];
    }
    ghost var d, s := Elements(detectedPaths), Elements(suppliedPaths);
    violations := [];
    for i := 0 to |suppliedPaths|
      invariant forall v :: v in violations <==> v.path in suppliedPaths[..i] && v.path !in d && v.reason == NOT_DETECTED
      invariant forall i, j :: 0 <= i < j < |violations| ==> (violations[i].reason == OMITTED ==> violations[j].reason == OMITTED)
    {
      assert suppliedPaths[..i + 1] == suppliedPaths[..i] + [suppliedPaths[i]];
      if suppliedPaths[i] in detectedPaths {
        continue;
      }
      violations := violations + [Violation(suppliedPaths[i], NOT_DETECTED)];
    }
    assert suppliedPaths[..|suppliedPaths|] == suppliedPaths;
    for i := 0 to |detectedPaths|
      invariant forall v :: v in violations <==>
                  (v.path in s && v.path !in d && v.reason == NOT_DETECTED)
                  || (v.path in detectedPaths[..i] && v.path !in s && v.reason == OMITTED)
      invariant forall i, j :: 0 <= i < j < |violations| ==> (violations[i].reason == OMITTED ==> violations[j].reason == OMITTED)
    {
      assert detectedPaths[..i + 1] == detectedPaths[..i] + [detectedPaths[i]];
      if detectedPaths[i] in suppliedPaths {
        continue;
      }
      violations := violations + [Violation(detectedPaths[i], OMITTED)];
    }
    assert detectedPaths[..|detectedPaths|] == detectedPaths;
  }

  ghost predicate Outside(files: set<string>, allowed: seq<string>, v: Violation) {
    v.path in files && !InScope(v.path, allowed) && v.reason == OUTSIDE
  }

  /** outOfScopeViolations */
  method OutOfScopeViolations(filesChanged: seq<string>, allowedPaths: seq<string>) returns (violations: seq<Violation>)
    ensures forall v :: v in violations <==> Outside(NormalizedSet(filesChanged), NormalizePathsSpec(allowedPaths), v)
  {
    hide NormalizedSet, StrictlySorted, NormalizePathsSpec, InScope;
    var allowed := NormalizePaths(allowedPaths);
    var files := NormalizePaths(filesChanged);
    violations := [];
    for i := 0 to |files|
      invariant forall v :: v in violations <==> v.path in files[..i] && !InScope(v.path, allowed) && v.reason == OUTSIDE
    {
      assert files[..i + 1] == files[..i] + [files[i]];
      var within := PathWithinScope(files[i], allowed);
      if within {
        continue;
      }
      violations := violations + [Violation(files[i], OUTSIDE)];
    }
    assert files[..|files|] == files;
  }

  /** The distinct reasons given for a path, in order. */
  function ReasonsFor(violations: seq<Violation>, path: string): seq<string> {
    if violations == [] then []
    else
      var rest := ReasonsFor(violations[..|violations| - 1], path);
      var v := violations[|violations| - 1];
      if Normalize(v.path) == path && path != "" && Trim(v.reason) != "" && Trim(v.reason) !in rest
      then rest + [Trim(v.reason)] else rest
  }

  /** The reasons of a path are those given for any spelling of it, each once. */
  lemma {:induction false} ReasonsExactly(violations: seq<Violation>, path: string)
    ensures forall reason :: reason in ReasonsFor(violations, path) <==>
              path != "" && reason != "" && exists i :: 0 <= i < |violations| && Normalize(violations[i].path) == path && Trim(violations[i].reason) == reason
    ensures Pigeonhole.Distinct(ReasonsFor(violations, path))
  {
    hide Normalize, Trim, Pigeonhole.Distinct;
    NoneDistinct();
    if violations != [] {
      var n := |violations| - 1;
      var front := violations[..n];
      ReasonsExactly(front, path);
      if Trim(violations[n].reason) !in ReasonsFor(front, path) {
        AppendDistinct(ReasonsFor(front, path), Trim(violations[n].reason));
      }
      forall reason
        ensures reason in ReasonsFor(violations, path) <==>
                  path != "" && reason != "" && exists i :: 0 <= i < |violations| && Normalize(violations[i].path) == path && Trim(violations[i].reason) == reason
      {
        ReasonNext(violations, path, reason);
      }
    }
  }

  lemma NoneDistinct()
    ensures Pigeonhole.Distinct<string>([])
  {
  }

  lemma AppendDistinct(xs: seq<string>, x: string)
    requires Pigeonhole.Distinct(xs) && x !in xs
    ensures Pigeonhole.Distinct(xs + [x])
  {
  }

  lemma ReasonNext(violations: seq<Violation>, path: string, reason: string)
    requires violations != []
    ensures var n := |violations| - 1;
            (exists i :: 0 <= i < |violations| && Normalize(violations[i].path) == path && Trim(violations[i].reason) == reason)
            <==> (Normalize(violations[n].path) == path && Trim(violations[n].reason) == reason)
                 || exists i :: 0 <= i < n && Normalize(violations[..n][i].path) == path && Trim(violations[..n][i].reason) == reason
  {
    hide Normalize, Trim;
    var n := |violations| - 1;
    if i :| 0 <= i < |violations| && Normalize(violations[i].path) == path && Trim(violations[i].reason) == reason {
      assert i < n ==> violations[..n][i] == violations[i];
    }
    if i :| 0 <= i < n && Normalize(violations[..n][i].path) == path && Trim(violations[..n][i].reason) == reason {
      assert violations[i] == violations[..n][i];
    }
  }

  function JoinReasons(reasons: seq<string>): string {
    if reasons == [] then ""
    else if |reasons| == 1 then reasons[0]
    else reasons[0] + "; " + JoinReasons(reasons[1..])
  }

  /** Joining puts the separator between, and nowhere else. */
  lemma {:induction false} JoinReasonsExactly(a: seq<string>, reason: string, b: seq<string>)
    ensures JoinReasons([]) == "" && JoinReasons([reason]) == reason
    ensures a != [] && b != [] ==> JoinReasons(a + b) == JoinReasons(a) + "; " + JoinReasons(b)
  {
    if |a| > 1 {
      JoinReasonsExactly(a[1..], reason, b);
      assert (a + b)[1..] == a[1..] + b;
    } else if |a| == 1 {
      assert (a + b)[1..] == b;
    }
  }

  function PathsOf(violations: seq<Violation>): seq<string> {
    seq(|violations|, i requires 0 <= i < |violations| => violations[i].path)
  }

  /** mergeCompletionViolations, its groups laid end to end: one line per path, sorted, with all its reasons. */
  method MergeViolations(violations: seq<Violation>) returns (merged: seq<Violation>)
    ensures StrictlySorted(PathsOf(merged))
    ensures Elements(PathsOf(merged)) == set p | p in ViolatedPaths(violations)
    ensures forall i :: 0 <= i < |merged| ==> merged[i].reason == JoinReasons(ReasonsFor(violations, merged[i].path))
  {
    hide Normalize, Trim, StrictlySorted, Elements;
    var reasonsByPath: map<string, seq<string>> := map[];
    for i := 0 to |violations|
      invariant reasonsByPath.Keys == ViolatedPaths(violations[..i])
      invariant forall p :: p in reasonsByPath ==> reasonsByPath[p] == ReasonsFor(violations[..i], p)
    {
      assert violations[..i + 1][..i] == violations[..i];
      var path, reason := Normalize(violations[i].path), Trim(violations[i].reason);
      if path == "" || reason == "" {
        continue;
      }
      NoReasonsOutside(violations[..i], path);
      var reasons := if path in reasonsByPath then reasonsByPath[path] else [];
      if reason in reasons {
        continue;
      }
      reasonsByPath := reasonsByPath[path := reasons + [reason]];
    }
    assert violations[..|violations|] == violations;
    var paths := SortedKeys(reasonsByPath.Keys);
    merged := [];
    for i := 0 to |paths|
      invariant |merged| == i && forall j :: 0 <= j < i ==>
                  merged[j].path == paths[j] && merged[j].reason == JoinReasons(ReasonsFor(violations, paths[j]))
    {
      InElements(paths, i);
      merged := merged + [Violation(paths[i], JoinReasons(reasonsByPath[paths[i]]))];
    }
    assert PathsOf(merged) == paths;
  }

  lemma InElements(xs: seq<string>, i: nat)
    requires i < |xs|
    ensures xs[i] in Elements(xs)
  {
  }

  function ViolatedPaths(violations: seq<Violation>): set<string> {
    if violations == [] then {}
    else
      var rest := ViolatedPaths(violations[..|violations| - 1]);
      var v := violations[|violations| - 1];
      if Normalize(v.path) == "" || Trim(v.reason) == "" then rest else rest + {Normalize(v.path)}
  }

  lemma {:induction false} NoReasonsOutside(violations: seq<Violation>, path: string)
    ensures path !in ViolatedPaths(violations) ==> ReasonsFor(violations, path) == []
  {
    if violations != [] {
      NoReasonsOutside(violations[..|violations| - 1], path);
    }
  }

  lemma {:induction false} ViolatedPathsMeaning(violations: seq<Violation>)
    ensures forall p :: p in ViolatedPaths(violations) <==>
              exists v :: v in violations && Normalize(v.path) == p && p != "" && Trim(v.reason) != ""
  {
    hide Normalize, Trim;
    if violations != [] {
      var n := |violations| - 1;
      ViolatedPathsMeaning(violations[..n]);
      assert violations == violations[..n] + [violations[n]];
    }
  }

  // ---------------------------------------------------------------- what a closeout complains about

  lemma ReasonsSurviveTrim()
    ensures Trim(NOT_DETECTED) != "" && Trim(OMITTED) != "" && Trim(OUTSIDE) != ""
  {
    hide Trim, TrimLeft, TrimRight;
    StartsWithP(NOT_DETECTED);
    StartsWithP(OMITTED);
    StartsWithP(OUTSIDE);
  }

  lemma StartsWithP(s: string)
    requires s != "" && s[0] == 'p'
    ensures Trim(s) != ""
  {
    TrimShape(TrimLeft(s));
    TrimRightShape(s);
    if TrimRight(s) == "" {
      AllSpace(s);
    }
  }

  lemma {:induction false} AllSpace(s: string)
    requires TrimRight(s) == ""
    ensures forall i :: 0 <= i < |s| ==> IsSpace(s[i])
  {
    if s != [] {
      AllSpace(s[..|s| - 1]);
    }
  }

  /** The changed files that Done goes by: the detected ones when detection is reliable, else those supplied. */
  function FilesChanged(reliable: bool, detected: seq<string>, supplied: seq<string>, noFileChanges: bool): Result<seq<string>, string> {
    if reliable then
      var files := NormalizePathsSpec(detected);
      if noFileChanges && files != [] then Err("no_file_changes cannot be used when file changes were detected") else Ok(files)
    else if noFileChanges then Ok([])
    else
      var files := NormalizePathsSpec(supplied);
      if files == [] then Err("automatic task delta detection is unavailable") else Ok(files)
  }

  /** When the changed files are refused, and what they are otherwise: a sorted list of accepted paths. */
  lemma FilesChangedMeaning(reliable: bool, detected: seq<string>, supplied: seq<string>, noFileChanges: bool)
    ensures var files := FilesChanged(reliable, detected, supplied, noFileChanges);
            var source := if reliable then NormalizedSet(detected) else if noFileChanges then {} else NormalizedSet(supplied);
            && (files.Err? <==> if reliable then noFileChanges && source != {} else !noFileChanges && source == {})
            && (files.Ok? ==> StrictlySorted(files.value) && Elements(files.value) == source)
  {
    hide NormalizedSet, StrictlySorted, NormalizePathsSpec;
    NormalizePathsSpecMeaning(detected);
    NormalizePathsSpecMeaning(supplied);
    ElementsEmpty(NormalizePathsSpec(detected));
    ElementsEmpty(NormalizePathsSpec(supplied));
    NothingSorted();
  }

  lemma NothingSorted()
    ensures StrictlySorted([]) && Elements([]) == {}
  {
  }

  /** The paths on which the supplied and the detected files differ, when they are compared at all. */
  function Mismatched(reliable: bool, detected: seq<string>, supplied: seq<string>): set<string> {
    var d, s := NormalizedSet(detected), NormalizedSet(supplied);
    if reliable && s != {} then (s - d) + (d - s) else {}
  }

  function OutOf(files: seq<string>, allowed: seq<string>): set<string> {
    set p | p in NormalizedSet(files) && !InScope(p, allowed)
  }

  /** The paths complained of; the scope test reads the allowed paths after their normalization. */
  function Complained(reliable: bool, detected: seq<string>, files: seq<string>, supplied: seq<string>, allowed: seq<string>): set<string> {
    Mismatched(reliable, detected, supplied) + OutOf(files, NormalizePathsSpec(allowed))
  }

  /** The names under which paths are reported: merging normalizes each once more and drops those it rejects. */
  function Reported(paths: set<string>): set<string> {
    (set p | p in paths :: Normalize(p)) - {""}
  }

  /** Some path complained of for this reason is reported under the name. */
  ghost predicate GivenFor(reliable: bool, detected: seq<string>, files: seq<string>, supplied: seq<string>, allowed: seq<string>,
                           name: string, reason: string) {
    exists p :: Normalize(p) == name
                && (Mismatch(reliable, NormalizedSet(detected), NormalizedSet(supplied), Violation(p, reason))
                    || Outside(NormalizedSet(files), NormalizePathsSpec(allowed), Violation(p, reason)))
  }

  function ReasonList(notDetected: bool, omitted: bool, outside: bool): seq<string> {
    (if notDetected then [NOT_DETECTED] else []) + (if omitted then [OMITTED] else []) + (if outside then [OUTSIDE] else [])
  }

  /** The text of a line: its reasons in their fixed order. */
  ghost function LineFor(reliable: bool, detected: seq<string>, files: seq<string>, supplied: seq<string>, allowed: seq<string>,
                         name: string): string {
    JoinReasons(ReasonList(GivenFor(reliable, detected, files, supplied, allowed, name, NOT_DETECTED),
                           GivenFor(reliable, detected, files, supplied, allowed, name, OMITTED),
                           GivenFor(reliable, detected, files, supplied, allowed, name, OUTSIDE)))
  }

  lemma ReasonsDiffer()
    ensures NOT_DETECTED != OMITTED && NOT_DETECTED != OUTSIDE && OMITTED != OUTSIDE
    ensures Trim(NOT_DETECTED) == NOT_DETECTED && Trim(OMITTED) == OMITTED && Trim(OUTSIDE) == OUTSIDE
  {
    hide Trim;
    assert |PATH| == 5;
    assert |NOT_DETECTED| == 85 && |OMITTED| == 82 && |OUTSIDE| == 31;
    assert NOT_DETECTED[84] == 'a' && OMITTED[81] == 'd' && OUTSIDE[30] == 'e';
    TrimShape(NOT_DETECTED);
    TrimShape(OMITTED);
    TrimShape(OUTSIDE);
  }

  function Rank(reason: string): nat {
    if reason == NOT_DETECTED then 0 else if reason == OMITTED then 1 else 2
  }

  ghost predicate Ranked(violations: seq<Violation>) {
    && (forall i :: 0 <= i < |violations| ==>
          violations[i].reason == NOT_DETECTED || violations[i].reason == OMITTED || violations[i].reason == OUTSIDE)
    && forall i, j :: 0 <= i < j < |violations| ==> Rank(violations[i].reason) <= Rank(violations[j].reason)
  }

  ghost predicate Given(violations: seq<Violation>, name: string, reason: string) {
    exists v :: v in violations && Normalize(v.path) == name && v.reason == reason
  }

  lemma {:induction false} RankedReasons(violations: seq<Violation>, name: string)
    requires Ranked(violations) && name != ""
    ensures ReasonsFor(violations, name)
            == ReasonList(Given(violations, name, NOT_DETECTED), Given(violations, name, OMITTED), Given(violations, name, OUTSIDE))
  {
    hide Normalize, Trim, Given;
    if violations == [] {
      forall reason {
        NothingGiven(name, reason);
      }
    } else {
      var n := |violations| - 1;
      var front, last := violations[..n], violations[n];
      RankedReasons(front, name);
      ReasonsDiffer();
      GivenStep(violations, name, NOT_DETECTED);
      GivenStep(violations, name, OMITTED);
      GivenStep(violations, name, OUTSIDE);
      NoneAbove(violations, name);
    }
  }

  lemma NothingGiven(name: string, reason: string)
    ensures !Given([], name, reason)
  {
  }

  lemma GivenStep(violations: seq<Violation>, name: string, reason: string)
    requires violations != []
    ensures var front, last := violations[..|violations| - 1], violations[|violations| - 1];
            Given(violations, name, reason) <==> Given(front, name, reason) || (Normalize(last.path) == name && last.reason == reason)
  {
    hide Normalize;
    assert violations == violations[..|violations| - 1] + [violations[|violations| - 1]];
  }

  /** No earlier line has a reason that comes after the last one's. */
  lemma NoneAbove(violations: seq<Violation>, name: string)
    requires Ranked(violations) && violations != []
    ensures var front, last := violations[..|violations| - 1], violations[|violations| - 1];
            && (last.reason == NOT_DETECTED ==> !Given(front, name, OMITTED))
            && (last.reason != OUTSIDE ==> !Given(front, name, OUTSIDE))
  {
    hide Normalize;
    ReasonsDiffer();
  }

  /** The violations of Done: one line for exactly every name under which a path complained of is reported, with its reasons. */
  method CompletionViolations(reliable: bool, detected: seq<string>, files: seq<string>, supplied: seq<string>, allowed: seq<string>)
    returns (violations: seq<Violation>)
    ensures StrictlySorted(PathsOf(violations))
    ensures Elements(PathsOf(violations)) == Reported(Complained(reliable, detected, files, supplied, allowed))
    ensures violations == [] <==> forall p :: p in Complained(reliable, detected, files, supplied, allowed) ==> Normalize(p) == ""
    ensures forall v :: v in violations ==> v.reason == LineFor(reliable, detected, files, supplied, allowed, v.path)
  {
    hide LineFor, JoinReasons, ReasonsFor, Mismatch, Outside, Complained, NormalizedSet, NormalizePathsSpec, StrictlySorted, Normalize, Trim, Reported;
    var mismatch := MismatchViolations(reliable, detected, supplied);
    var outside := OutOfScopeViolations(files, allowed);
    violations := MergeViolations(mismatch + outside);
    ElementsEmpty(PathsOf(violations));
    ComplaintsTell(reliable, detected, files, supplied, allowed, mismatch, outside);
    ReportedNothing(Complained(reliable, detected, files, supplied, allowed));
    forall i | 0 <= i < |violations|
      ensures violations[i].reason == LineFor(reliable, detected, files, supplied, allowed, violations[i].path)
    {
      var v := violations[i];
      InElements(PathsOf(violations), i);
      NamesNotBlank(Complained(reliable, detected, files, supplied, allowed));
      LinesTell(reliable, detected, files, supplied, allowed, mismatch, outside, v.path);
    }
  }

  lemma LinesTell(reliable: bool, detected: seq<string>, files: seq<string>, supplied: seq<string>, allowed: seq<string>,
                  mismatch: seq<Violation>, outside: seq<Violation>, name: string)
    requires forall v :: v in mismatch <==> Mismatch(reliable, NormalizedSet(detected), NormalizedSet(supplied), v)
    requires forall v :: v in outside <==> Outside(NormalizedSet(files), NormalizePathsSpec(allowed), v)
    requires forall i, j :: 0 <= i < j < |mismatch| ==> (mismatch[i].reason == OMITTED ==> mismatch[j].reason == OMITTED)
    requires name != ""
    ensures JoinReasons(ReasonsFor(mismatch + outside, name)) == LineFor(reliable, detected, files, supplied, allowed, name)
  {
    hide Normalize, NormalizedSet, NormalizePathsSpec, InScope, JoinReasons, ReasonsFor;
    var all := mismatch + outside;
    ReasonsDiffer();
    forall i | 0 <= i < |all|
      ensures i < |mismatch| ==> all[i].reason == NOT_DETECTED || all[i].reason == OMITTED
      ensures i >= |mismatch| ==> all[i].reason == OUTSIDE
    {
      assert i < |mismatch| ==> all[i] in mismatch;
      assert i >= |mismatch| ==> all[i] in outside;
    }
    RankedReasons(all, name);
    forall reason
      ensures Given(all, name, reason) <==> GivenFor(reliable, detected, files, supplied, allowed, name, reason)
    {
      GivenAre(reliable, detected, files, supplied, allowed, mismatch, outside, name, reason);
    }
  }

  lemma GivenAre(reliable: bool, detected: seq<string>, files: seq<string>, supplied: seq<string>, allowed: seq<string>,
                 mismatch: seq<Violation>, outside: seq<Violation>, name: string, reason: string)
    requires forall v :: v in mismatch <==> Mismatch(reliable, NormalizedSet(detected), NormalizedSet(supplied), v)
    requires forall v :: v in outside <==> Outside(NormalizedSet(files), NormalizePathsSpec(allowed), v)
    ensures Given(mismatch + outside, name, reason) <==> GivenFor(reliable, detected, files, supplied, allowed, name, reason)
  {
    hide Normalize, Mismatch, Outside;
    if p :| Normalize(p) == name
            && (Mismatch(reliable, NormalizedSet(detected), NormalizedSet(supplied), Violation(p, reason))
                || Outside(NormalizedSet(files), NormalizePathsSpec(allowed), Violation(p, reason))) {
      assert Violation(p, reason) in mismatch + outside;
    }
    if v :| v in mismatch + outside && Normalize(v.path) == name && v.reason == reason {
      assert v in mismatch || v in outside;
      assert v == Violation(v.path, reason);
    }
  }

  lemma NamesNotBlank(paths: set<string>)
    ensures "" !in Reported(paths)
  {
  }

  lemma ReportedNothing(paths: set<string>)
    ensures Reported(paths) == {} <==> forall p :: p in paths ==> Normalize(p) == ""
  {
    hide Normalize;
    if Reported(paths) == {} {
      forall p | p in paths
        ensures Normalize(p) == ""
      {
        assert Normalize(p) !in Reported(paths);
      }
    }
  }

  lemma ComplaintsTell(reliable: bool, detected: seq<string>, files: seq<string>, supplied: seq<string>, allowed: seq<string>,
                       mismatch: seq<Violation>, outside: seq<Violation>)
    requires forall v :: v in mismatch <==> Mismatch(reliable, NormalizedSet(detected), NormalizedSet(supplied), v)
    requires forall v :: v in outside <==> Outside(NormalizedSet(files), NormalizePathsSpec(allowed), v)
    ensures ViolatedPaths(mismatch + outside) == Reported(Complained(reliable, detected, files, supplied, allowed))
  {
    hide Normalize, Trim, NormalizedSet, NormalizePathsSpec, InScope;
    var all := mismatch + outside;
    var complained := Complained(reliable, detected, files, supplied, allowed);
    ReasonsSurviveTrim();
    ViolatedPathsMeaning(all);
    forall v | v in all
      ensures v.path in complained && Trim(v.reason) != ""
    {
      assert v in mismatch || v in outside;
    }
    forall p | p in complained
      ensures exists v :: v in all && v.path == p
    {
      if p in OutOf(files, NormalizePathsSpec(allowed)) {
        assert Violation(p, OUTSIDE) in outside;
      } else if p in NormalizedSet(supplied) {
        assert Violation(p, NOT_DETECTED) in mismatch;
      } else {
        assert Violation(p, OMITTED) in mismatch;
      }
    }
  }

  // ---------------------------------------------------------------- when the verdict is right

  /** Nothing is wrong: the supplied list is empty or equals the delta, and every delta path is in scope. */
  ghost predicate Blameless(detected: seq<string>, supplied: seq<string>, allowed: seq<string>) {
    var d, s := NormalizedSet(detected), NormalizedSet(supplied);
    (s == {} || s == d) && forall p :: p in d ==> InScope(p, allowed)
  }

  /** No violation is reported for a detected delta. */
  ghost predicate Silent(detected: seq<string>, supplied: seq<string>, allowed: seq<string>) {
    Reported(Complained(true, detected, NormalizePathsSpec(detected), supplied, NormalizePathsSpec(allowed))) == {}
  }

  /** The allowed paths as the scope test uses them: normalized when they are collected, and again by the test. */
  function Rescoped(allowed: seq<string>): seq<string> {
    NormalizePathsSpec(NormalizePathsSpec(allowed))
  }

  lemma BlamelessMeans(detected: seq<string>, supplied: seq<string>, allowed: seq<string>)
    ensures Blameless(detected, supplied, allowed) <==> Mismatched(true, detected, supplied) == {} && OutOf(detected, allowed) == {}
  {
    hide NormalizedSet, InScope;
    var d, s := NormalizedSet(detected), NormalizedSet(supplied);
    if Mismatched(true, detected, supplied) == {} && s != {} {
      assert s - d == {} && d - s == {};
    }
    if OutOf(detected, allowed) == {} {
      forall p | p in d
        ensures InScope(p, allowed)
      {
        assert p !in OutOf(detected, allowed);
      }
    }
  }

  ghost predicate StablePaths(paths: seq<string>) {
    forall i :: 0 <= i < |paths| ==> Canonical(Normalize(paths[i]))
  }

  /** A path that canonical paths can be at or below: it starts with no space and no drive. */
  predicate Enterable(a: string) {
    a != "" && !IsSpace(a[0]) && !WindowsAbsolute(a)
  }

  /** Of two finite sets of paths, every enterable one of the first is at or below one of the second. */
  ghost predicate WithinPlaces(places: set<string>, others: set<string>) {
    forall a :: a in places && Enterable(a) ==> Under(a, others)
  }

  /** The enterable allowed paths, normalized once and normalized again, lie under each other. */
  ghost predicate ScopeStands(allowed: seq<string>) {
    var once, again := NormalizedSet(allowed), NormalizedSet(Rescoped(allowed));
    WithinPlaces(once, again) && WithinPlaces(again, once)
  }

  /** The verdict is right on all stable lists exactly for the allowed paths that stand a second normalization. */
  lemma VerdictRightExactly(allowed: seq<string>)
    ensures (forall detected, supplied :: StablePaths(detected) && StablePaths(supplied) ==>
               (Silent(detected, supplied, allowed) <==> Blameless(detected, supplied, allowed)))
            <==> ScopeStands(allowed)
  {
    hide InScope, Rescoped, Normalize, NormalizedSet, Silent, Blameless, ScopeStands;
    ScopeStandsExactly(allowed);
    if ScopeStands(allowed) {
      forall detected, supplied | StablePaths(detected) && StablePaths(supplied)
        ensures Silent(detected, supplied, allowed) <==> Blameless(detected, supplied, allowed)
      {
        StableVerdict(detected, supplied, allowed);
      }
    }
    if forall detected, supplied :: StablePaths(detected) && StablePaths(supplied) ==>
         (Silent(detected, supplied, allowed) <==> Blameless(detected, supplied, allowed)) {
      forall p | Canonical(p) && p != ""
        ensures InScope(p, Rescoped(allowed)) <==> InScope(p, allowed)
      {
        assert StablePaths([p]) && StablePaths([]);
        assert Silent([p], [], allowed) <==> Blameless([p], [], allowed);
        OnePathVerdict(p, allowed);
      }
    }
  }

  /** Seen from the canonical paths: each is inside both scopes or outside both. */
  ghost predicate KeepsScope(allowed: seq<string>) {
    forall p :: Canonical(p) && p != "" ==> (InScope(p, Rescoped(allowed)) <==> InScope(p, allowed))
  }

  lemma ScopeStandsExactly(allowed: seq<string>)
    ensures ScopeStands(allowed) <==> KeepsScope(allowed)
  {
    hide InScope, Rescoped, NormalizedSet, Normalize, Under, WithinPlaces;
    var once, again := NormalizedSet(allowed), NormalizedSet(Rescoped(allowed));
    ResultsPlain(allowed);
    ResultsPlain(Rescoped(allowed));
    forall p | Canonical(p) && p != ""
      ensures InScope(p, allowed) <==> Under(p, once)
      ensures InScope(p, Rescoped(allowed)) <==> Under(p, again)
    {
      InScopeBySet(p, allowed);
      InScopeBySet(p, Rescoped(allowed));
    }
    WithinExactly(once, again);
    WithinExactly(again, once);
  }

  lemma ResultsPlain(paths: seq<string>)
    ensures forall a :: a in NormalizedSet(paths) ==> Plain(a)
  {
    hide Normalize, Plain;
    forall a | a in NormalizedSet(paths)
      ensures Plain(a)
    {
      ResultsExactly(a);
    }
  }

  /** Every canonical path under the first set is under the second exactly when its enterable members are. */
  lemma WithinExactly(places: set<string>, others: set<string>)
    requires forall a :: a in places ==> Plain(a)
    ensures WithinPlaces(places, others) <==> forall p :: Canonical(p) && p != "" && Under(p, places) ==> Under(p, others)
  {
    hide Normalize, Plain, Enterable, Under;
    if WithinPlaces(places, others) {
      forall p | Canonical(p) && p != "" && Under(p, places)
        ensures Under(p, others)
      {
        var a := Above(p, places);
        UnderTrans(p, a, others);
      }
    }
    if forall p :: Canonical(p) && p != "" && Under(p, places) ==> Under(p, others) {
      forall a | a in places && Enterable(a)
        ensures Under(a, others)
      {
        var p := CanonicalBelow(a, others);
        UnderBy(p, a, places);
        assert Under(p, others);
      }
    }
  }

  /** What a canonical path is under is enterable. */
  lemma Above(p: string, places: set<string>) returns (a: string)
    requires Canonical(p) && p != "" && Under(p, places) && forall b :: b in places ==> Plain(b)
    ensures a in places && Split(a, '/') <= Split(p, '/') && Enterable(a)
  {
    hide Normalize, Split;
    a :| a in places && Split(a, '/') <= Split(p, '/');
    ResultsExactly(a);
    NormalizeIdempotentExactly(p);
    PrefixAsString(a, p);
  }

  lemma PrefixAsString(a: string, p: string)
    requires Split(a, '/') <= Split(p, '/')
    ensures p == a || HasPrefix(p, a + "/")
  {
    PrefixIsPiecePrefix(p, a, '/');
  }

  lemma UnderTrans(p: string, a: string, others: set<string>)
    requires Split(a, '/') <= Split(p, '/') && Under(a, others)
    ensures Under(p, others)
  {
    hide Split;
    var b :| b in others && Split(b, '/') <= Split(a, '/');
  }

  lemma UnderBy(p: string, a: string, places: set<string>)
    requires a in places && Split(a, '/') <= Split(p, '/')
    ensures Under(p, places)
  {
  }

  /** A canonical path at or below an enterable one that is under other places only if the enterable one is. */
  lemma CanonicalBelow(a: string, others: set<string>) returns (p: string)
    requires Plain(a) && Enterable(a)
    ensures Canonical(p) && p != "" && Split(a, '/') <= Split(p, '/')
    ensures Under(p, others) ==> Under(a, others)
  {
    hide Normalize, Split, Clean;
    if Trimmed(a) {
      p := a;
      CanonicalPlain(a);
    } else {
      var x := LongName(others);
      p := a + "/" + x;
      ChildPlain(a, x);
      SpacedChild(a, x);
      CanonicalPlain(p);
      if Under(p, others) {
        var b :| b in others && Split(b, '/') <= Split(p, '/');
        ShortPrefix(a, x, b);
      }
    }
  }

  lemma CanonicalPlain(p: string)
    requires Plain(p) && Trimmed(p) && !WindowsAbsolute(p)
    ensures Canonical(p) && p != ""
  {
    hide Normalize, Trimmed, WindowsAbsolute;
    ResultsExactly(p);
    var raw :| Normalize(raw) == p;
    NormalizeIdempotentExactly(raw);
  }

  /** A name longer than every listed path. */
  lemma {:induction false} LongName(paths: set<string>) returns (x: string)
    ensures x != "" && (forall i :: 0 <= i < |x| ==> x[i] == 'x') && forall b :: b in paths ==> |b| < |x|
  {
    if paths == {} {
      x := "x";
    } else {
      var b :| b in paths;
      x := LongName(paths - {b});
      while |x| <= |b|
        invariant x != "" && (forall i :: 0 <= i < |x| ==> x[i] == 'x') && forall c :: c in paths - {b} ==> |c| < |x|
        decreases |b| - |x|
      {
        x := x + "x";
      }
    }
  }

  lemma ChildPlain(a: string, x: string)
    requires Plain(a) && x != "" && forall i :: 0 <= i < |x| ==> x[i] == 'x'
    ensures Plain(a + "/" + x) && Split(a + "/" + x, '/') == Split(a, '/') + [x]
  {
    hide Split;
    assert a + "/" + x == a + ['/'] + x;
    SplitConcat(a, x, '/');
    SplitPiece(x, '/');
    assert x[0] == 'x';
  }

  lemma SpacedChild(a: string, x: string)
    requires Enterable(a) && !Trimmed(a) && x != "" && forall i :: 0 <= i < |x| ==> x[i] == 'x'
    ensures Trimmed(a + "/" + x) && !WindowsAbsolute(a + "/" + x)
  {
    var p := a + "/" + x;
    assert p[0] == a[0] && p[|p| - 1] == 'x';
    assert IsSpace(a[|a| - 1]);
    if |a| == 2 { assert p[1] == a[1]; }
    if |a| >= 3 { assert p[0] == a[0] && p[1] == a[1] && p[2] == a[2]; }
  }

  lemma ShortPrefix(a: string, x: string, b: string)
    requires Split(b, '/') <= Split(a, '/') + [x] && |b| < |x|
    ensures Split(b, '/') <= Split(a, '/')
  {
    if |Split(b, '/')| == |Split(a, '/')| + 1 {
      assert Split(b, '/')[|Split(a, '/')|] == x;
      JoinSplit(b, '/');
      PieceShorter(Split(b, '/'), |Split(a, '/')|);
    }
  }

  lemma {:induction false} PieceShorter(pieces: seq<string>, i: nat)
    requires i < |pieces|
    ensures |pieces[i]| <= |Join(pieces, '/')|
  {
    if i > 0 {
      PieceShorter(pieces[1..], i - 1);
    }
  }

  lemma OnePathVerdict(p: string, allowed: seq<string>)
    requires Canonical(p) && p != ""
    ensures Silent([p], [], allowed) <==> InScope(p, Rescoped(allowed))
    ensures Blameless([p], [], allowed) <==> InScope(p, allowed)
  {
    hide InScope, Normalize, Reported;
    assert NormalizedSet([p]) == {p} by { assert [p][0] == p; }
    assert NormalizedSet([]) == {};
    StableFiles([p]);
    ReportedNothing(Complained(true, [p], NormalizePathsSpec([p]), [], NormalizePathsSpec(allowed)));
    assert OutOf(NormalizePathsSpec([p]), Rescoped(allowed)) == if InScope(p, Rescoped(allowed)) then {} else {p};
  }

  /** A second normalization of stable paths changes nothing. */
  lemma StableFiles(paths: seq<string>)
    requires StablePaths(paths)
    ensures NormalizedSet(NormalizePathsSpec(paths)) == NormalizedSet(paths)
    ensures forall p :: p in NormalizedSet(paths) ==> Canonical(p) && p != ""
  {
    hide Normalize;
    var once := NormalizePathsSpec(paths);
    NormalizePathsSpecMeaning(paths);
    forall p | p in NormalizedSet(paths)
      ensures Canonical(p) && p != "" && p in NormalizedSet(once)
    {
      var i :| 0 <= i < |paths| && Normalize(paths[i]) == p;
      assert Canonical(Normalize(paths[i]));
      assert p in Elements(once);
      var k :| 0 <= k < |once| && once[k] == p;
      assert Normalize(once[k]) == p;
    }
    forall q | q in NormalizedSet(once)
      ensures q in NormalizedSet(paths)
    {
      var k :| 0 <= k < |once| && Normalize(once[k]) == q;
      assert once[k] in Elements(once);
    }
  }

  lemma StableVerdict(detected: seq<string>, supplied: seq<string>, allowed: seq<string>)
    requires StablePaths(detected) && StablePaths(supplied) && ScopeStands(allowed)
    ensures Silent(detected, supplied, allowed) <==> Blameless(detected, supplied, allowed)
  {
    hide InScope, NormalizePathsSpec, NormalizedSet, Normalize, StablePaths, Reported, ScopeStands;
    ScopeStandsExactly(allowed);
    var files := NormalizePathsSpec(detected);
    StableFiles(detected);
    StableFiles(supplied);
    ReportedNothing(Complained(true, detected, files, supplied, NormalizePathsSpec(allowed)));
    BlamelessMeans(detected, supplied, allowed);
    assert OutOf(files, Rescoped(allowed)) == OutOf(detected, allowed);
    assert forall p :: p in Complained(true, detected, files, supplied, NormalizePathsSpec(allowed)) ==> Normalize(p) != "";
  }

  /** The path is at or below one of these, segment by segment. */
  ghost predicate Under(p: string, places: set<string>) {
    exists a :: a in places && Split(a, '/') <= Split(p, '/')
  }

  lemma InScopeBySet(p: string, allowed: seq<string>)
    ensures InScope(p, allowed) <==> Normalize(p) != "" && Under(Normalize(p), NormalizedSet(allowed))
  {
    hide Normalize, Split;
    if i :| 0 <= i < |allowed| && Covers(allowed[i], p) {
      assert Normalize(allowed[i]) in NormalizedSet(allowed);
    }
    if Normalize(p) != "" && Under(Normalize(p), NormalizedSet(allowed)) {
      var a :| a in NormalizedSet(allowed) && Split(a, '/') <= Split(Normalize(p), '/');
      var i :| 0 <= i < |allowed| && Normalize(allowed[i]) == a;
      assert Covers(allowed[i], p);
    }
  }

  // ---------------------------------------------------------------- wrong verdicts

  /** A supplied path that the next normalization rejects: a mismatch, and no violation. */
  lemma UnstablePathHidesMismatch()
    ensures !Blameless([], ["./C:/x"], []) && Silent([], ["./C:/x"], [])
  {
    hide Normalize, InScope, Reported;
    DriveSurvives();
    DriveRejected();
    assert NormalizedSet(["./C:/x"]) == {"C:/x"} by {
      assert Normalize(["./C:/x"][0]) == "C:/x";
    }
    assert NormalizedSet([]) == {} && NormalizePathsSpec([]) == [];
    ReportedNothing(Complained(true, [], [], ["./C:/x"], NormalizePathsSpec([])));
  }

  /** Allowing "a /" allows "a " and what is below it; the scope test reads it as "a". */
  lemma TrailingSpaceMovesScope()
    ensures !Blameless(["a/x"], [], ["a /"]) && Silent(["a/x"], [], ["a /"])
    ensures Blameless(["a /x"], [], ["a /"]) && !Silent(["a /x"], [], ["a /"])
  {
    hide *;
    SpacedPaths();
    assert "a" != "a " by { assert |"a"| != |"a "|; }
    assert ["a", "x"][0] == "a" && ["a ", "x"][0] == "a ";
    assert ["a"] <= ["a", "x"] && ["a "] <= ["a ", "x"] && !(["a"] <= ["a ", "x"]) && !(["a "] <= ["a", "x"]);
    SpacedVerdict("a/x");
    SpacedVerdict("a /x");
  }

  lemma SpacedVerdict(p: string)
    requires Canonical(p) && p != ""
    ensures Silent([p], [], ["a /"]) <==> Split("a", '/') <= Split(p, '/')
    ensures Blameless([p], [], ["a /"]) <==> Split("a ", '/') <= Split(p, '/')
  {
    hide Normalize, InScope, NormalizePathsSpec, NormalizedSet, Silent, Blameless, Under;
    SpacedPaths();
    OneNormalized("a /", "a ");
    OneNormalized("a ", "a");
    OneNormalized("a", "a");
    OnePathVerdict(p, ["a /"]);
    InScopeBySet(p, ["a"]);
    InScopeBySet(p, ["a /"]);
    UnderOne(p, "a");
    UnderOne(p, "a ");
  }

  lemma OneNormalized(raw: string, p: string)
    requires Normalize(raw) == p != ""
    ensures NormalizedSet([raw]) == {p} && NormalizePathsSpec([raw]) == [p]
  {
    hide Normalize;
    assert [raw][0] == raw && [raw][..0] == [];
    assert Normalize([raw][0]) == p;
  }

  lemma UnderOne(p: string, a: string)
    ensures Under(p, {a}) <==> Split(a, '/') <= Split(p, '/')
  {
  }

  lemma SpacedPaths()
    ensures Normalize("a /") == "a " && Normalize("a ") == "a"
    ensures Canonical("a") && Canonical("a/x") && Canonical("a /x")
    ensures Split("a/x", '/') == ["a", "x"] && Split("a /x", '/') == ["a ", "x"] && Split("a", '/') == ["a"] && Split("a ", '/') == ["a "]
  {
    hide Normalize, Split, Trim;
    TrailingSpaceSurvives();
    SplitPiece("a", '/');
    SplitPiece("a ", '/');
    SplitPiece("x", '/');
    SplitConcat("a", "x", '/');
    SplitConcat("a ", "x", '/');
    assert "a" + ['/'] + "x" == "a/x" && "a " + ['/'] + "x" == "a /x";
    assert "a"[0] == "a/x"[0] == "a /x"[0] == 'a' && "a/x"[1] == '/' && "a /x"[1] == ' ';
    CanonicalIfClean("a");
    CanonicalIfClean("a/x");
    CanonicalIfClean("a /x");
    TrimmedSpace();
    TrimDecides("a ", "a");
  }

  lemma TrimmedSpace()
    ensures Trim("a ") == Trim("a")
  {
    assert "a "[..1] == "a";
  }

  lemma TrimDecides(a: string, b: string)
    requires Trim(a) == Trim(b)
    ensures Normalize(a) == Normalize(b)
  {
  }
}
