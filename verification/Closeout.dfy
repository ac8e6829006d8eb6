/**
 Closing out a receipt (internal/service/backend/completion.go): the definition-of-done issues,
 the decision of `Done`, and their agreement with the review gate's log.
 */
module Closeout {
  import opened Wrappers
  import opened Strings
  import opened ReviewGate
  import Paths
  import ScopeDelta
  import F = Fingerprint

  datatype WorkItem = WorkItem(key: string, status: Status)

  /** A required gate; gate.runnable says whether it defines a command. */
  datatype Definition = Definition(key: string, gate: Gate)

  datatype Issue =
    | MissingItem(key: string)
    | IncompleteItem(key: string, status: Status)
    | NoPassingExecution(key: string)
    | StaleReview(key: string)

  // ---------------------------------------------------------------- normalized inputs

  function Priority(s: Status): nat {
    match s
    case Complete => 0
    case Superseded => 0
    case Pending => 1
    case InProgress => 2
    case Blocked => 3
  }

  /** normalizeWorkItems, read by key: the most pressing status wins, the later of two equal ones. */
  function StatusByKey(items: seq<WorkItem>): map<string, Status> {
    if items == [] then map[]
    else
      var rest := StatusByKey(items[..|items| - 1]);
      var item := items[|items| - 1];
      var key := Paths.Normalize(item.key);
      if key == "" then rest
      else if key in rest && Priority(item.status) < Priority(rest[key]) then rest
      else rest[key := item.status]
  }

  function TrimmedSet(values: seq<string>): set<string> {
    if values == [] then {} else TrimmedSet(values[..|values| - 1]) + ({Trim(values[|values| - 1])} - {""})
  }

  /** normalizeValues */
  method NormalizeValues(values: seq<string>) returns (out: seq<string>)
    ensures StrictlySorted(out) && Elements(out) == TrimmedSet(values)
  {
    hide Trim, StrictlySorted;
    var seen: set<string> := {};
    out := [];
    for i := 0 to |values|
      invariant seen == Elements(out) == TrimmedSet(values[..i])
    {
      assert values[..i + 1][..i] == values[..i];
      var trimmed := Trim(values[i]);
      if trimmed == "" || trimmed in seen {
        continue;
      }
      ElementsAppend(out, trimmed);
      seen := seen + {trimmed};
      out := out + [trimmed];
    }
    assert values[..|values|] == values;
    out := SortStrings(out);
  }

  // ---------------------------------------------------------------- the issues

  function KeyIssue(statuses: map<string, Status>, key: string): Option<Issue> {
    if key !in statuses then Some(MissingItem(key))
    else if statuses[key] != Complete then Some(IncompleteItem(key, statuses[key]))
    else None
  }

  predicate KeyComplete(statuses: map<string, Status>, key: string) {
    key in statuses && statuses[key] == Complete
  }

  /** What Done reports for a gate whose task is complete. */
  function GateIssue(statuses: map<string, Status>, d: Definition, log: seq<Attempt>, fingerprint: string): Option<Issue> {
    if !d.gate.runnable || !KeyComplete(statuses, d.key) || GateSatisfied(d.gate, log, fingerprint) then None
    else if log == [] || !d.gate.newFingerprint then Some(NoPassingExecution(d.key))
    else Some(StaleReview(d.key))
  }

  /** The attempt logs and current fingerprints by review key. */
  datatype Reviews = Reviews(logs: string -> seq<Attempt>, fingerprints: string -> string)

  function KeyIssues(statuses: map<string, Status>, keys: seq<string>): seq<Issue> {
    if keys == [] then []
    else
      var rest := KeyIssues(statuses, keys[..|keys| - 1]);
      var issue := KeyIssue(statuses, keys[|keys| - 1]);
      if issue.Some? then rest + [issue.value] else rest
  }

  function GateIssues(statuses: map<string, Status>, definitions: seq<Definition>, reviews: Reviews): seq<Issue> {
    if definitions == [] then []
    else
      var rest := GateIssues(statuses, definitions[..|definitions| - 1], reviews);
      var d := definitions[|definitions| - 1];
      var issue := GateIssue(statuses, d, reviews.logs(d.key), reviews.fingerprints(d.key));
      if issue.Some? then rest + [issue.value] else rest
  }

  /** evaluateDefinitionOfDoneIssues: its two loops after the two early returns. */
  method EvaluateIssues(items: seq<WorkItem>, requiredKeys: seq<string>, definitions: seq<Definition>, reviews: Reviews)
    returns (issues: seq<Issue>)
    ensures TrimmedSet(requiredKeys) == {} ==> issues == []
    ensures TrimmedSet(requiredKeys) != {} ==>
              (issues == [] <==> DefinitionOfDone(StatusByKey(items), TrimmedSet(requiredKeys), definitions, reviews))
    ensures TrimmedSet(requiredKeys) != {} ==>
              exists keys :: StrictlySorted(keys) && Elements(keys) == TrimmedSet(requiredKeys)
                && issues == KeyIssues(StatusByKey(items), keys) + GateIssues(StatusByKey(items), definitions, reviews)
  {
    hide StrictlySorted, GateSatisfied, StatusByKey, TrimmedSet;
    var keys := NormalizeValues(requiredKeys);
    ElementsEmpty(keys);
    if keys == [] {
      return [];
    }
    var statuses := StatusByKey(items);
    issues := [];
    for i := 0 to |keys|
      invariant issues == KeyIssues(statuses, keys[..i])
    {
      assert keys[..i + 1][..i] == keys[..i];
      if keys[i] !in statuses {
        issues := issues + [MissingItem(keys[i])];
        continue;
      }
      if statuses[keys[i]] != Complete {
        issues := issues + [IncompleteItem(keys[i], statuses[keys[i]])];
      }
    }
    assert keys[..|keys|] == keys;
    KeyIssuesEmpty(statuses, keys);
    GateIssuesEmpty(statuses, definitions, reviews);
    if statuses == map[] {
      NoStatusNoGateIssue(definitions, reviews);
      assert issues == issues + GateIssues(statuses, definitions, reviews);
      return;
    }
    ghost var keyIssues := issues;
    for i := 0 to |definitions|
      invariant issues == keyIssues + GateIssues(statuses, definitions[..i], reviews)
    {
      assert definitions[..i + 1][..i] == definitions[..i];
      var d := definitions[i];
      if !d.gate.runnable || d.key !in statuses || statuses[d.key] != Complete {
        continue;
      }
      var attempts := reviews.logs(d.key);
      if attempts == [] {
        NoLogNotSatisfied(d.gate, reviews.fingerprints(d.key));
        issues := issues + [NoPassingExecution(d.key)];
        continue;
      }
      var met := CheckGate(d.gate, attempts, reviews.fingerprints(d.key));
      if !met {
        issues := issues + [if d.gate.newFingerprint then StaleReview(d.key) else NoPassingExecution(d.key)];
      }
    }
    assert definitions[..|definitions|] == definitions;
  }

  method CheckGate(gate: Gate, attempts: seq<Attempt>, fingerprint: string) returns (met: bool)
    ensures met == GateSatisfied(gate, attempts, fingerprint)
  {
    if !gate.newFingerprint {
      var attempt := Latest(attempts);
      return attempt.Some? && attempt.value.passed;
    }
    var attempt := LatestAt(attempts, fingerprint);
    return attempt.Some? && attempt.value.passed;
  }

  lemma NoLogNotSatisfied(gate: Gate, fingerprint: string)
    ensures !GateSatisfied(gate, [], fingerprint)
  {
  }

  lemma {:induction false} NoStatusNoGateIssue(definitions: seq<Definition>, reviews: Reviews)
    ensures GateIssues(map[], definitions, reviews) == []
  {
    if definitions != [] {
      NoStatusNoGateIssue(definitions[..|definitions| - 1], reviews);
    }
  }

  /** Every required key is complete, and every runnable gate's log shows the pass it needs. */
  ghost predicate DefinitionOfDone(statuses: map<string, Status>, required: set<string>, definitions: seq<Definition>, reviews: Reviews) {
    && (forall key :: key in required ==> KeyComplete(statuses, key))
    && (forall i :: 0 <= i < |definitions| && definitions[i].gate.runnable && KeyComplete(statuses, definitions[i].key) ==>
          GateSatisfied(definitions[i].gate, reviews.logs(definitions[i].key), reviews.fingerprints(definitions[i].key)))
  }

  lemma {:induction false} KeyIssuesEmpty(statuses: map<string, Status>, keys: seq<string>)
    ensures KeyIssues(statuses, keys) == [] <==> forall key :: key in Elements(keys) ==> KeyComplete(statuses, key)
  {
    if keys != [] {
      var n := |keys| - 1;
      KeyIssuesEmpty(statuses, keys[..n]);
      ElementsAppend(keys[..n], keys[n]);
      assert keys == keys[..n] + [keys[n]];
    }
  }

  lemma {:induction false} GateIssuesEmpty(statuses: map<string, Status>, definitions: seq<Definition>, reviews: Reviews)
    ensures GateIssues(statuses, definitions, reviews) == [] <==>
            forall i :: 0 <= i < |definitions| && definitions[i].gate.runnable && KeyComplete(statuses, definitions[i].key) ==>
              GateSatisfied(definitions[i].gate, reviews.logs(definitions[i].key), reviews.fingerprints(definitions[i].key))
  {
    hide GateSatisfied;
    if definitions != [] {
      var n := |definitions| - 1;
      GateIssuesEmpty(statuses, definitions[..n], reviews);
      var d := definitions[n];
      assert GateIssue(statuses, d, reviews.logs(d.key), reviews.fingerprints(d.key)).None?
             <==> (d.gate.runnable && KeyComplete(statuses, d.key) ==>
                     GateSatisfied(d.gate, reviews.logs(d.key), reviews.fingerprints(d.key)));
    }
  }

  /** Every complete gate without its pass is reported: as never passed, or under the rule with attempts as stale. */
  ghost predicate GateReported(statuses: map<string, Status>, d: Definition, reviews: Reviews, stale: bool) {
    && d.gate.runnable && d.key in statuses && statuses[d.key] == Complete
    && !LogShowsPass(d.gate, reviews.logs(d.key), reviews.fingerprints(d.key))
    && stale == (reviews.logs(d.key) != [] && d.gate.newFingerprint)
  }

  ghost predicate IssueStands(statuses: map<string, Status>, keys: seq<string>, definitions: seq<Definition>, reviews: Reviews, issue: Issue) {
    match issue
    case MissingItem(key) => key in keys && key !in statuses
    case IncompleteItem(key, status) => key in keys && key in statuses && statuses[key] == status != Complete
    case NoPassingExecution(key) => exists d :: d in definitions && d.key == key && GateReported(statuses, d, reviews, false)
    case StaleReview(key) => exists d :: d in definitions && d.key == key && GateReported(statuses, d, reviews, true)
  }

  /** Which issues are listed. */
  lemma IssuesExactly(statuses: map<string, Status>, keys: seq<string>, definitions: seq<Definition>, reviews: Reviews, issue: Issue)
    ensures issue in KeyIssues(statuses, keys) + GateIssues(statuses, definitions, reviews) <==>
              IssueStands(statuses, keys, definitions, reviews, issue)
  {
    hide LogShowsPass;
    KeyIssueMembers(statuses, keys, issue);
    GateIssueMembers(statuses, definitions, reviews, issue);
    forall d: Definition
      ensures GateIssue(statuses, d, reviews.logs(d.key), reviews.fingerprints(d.key)) == Some(issue) <==>
                (issue == NoPassingExecution(d.key) && GateReported(statuses, d, reviews, false))
                || (issue == StaleReview(d.key) && GateReported(statuses, d, reviews, true))
    {
      SatisfiedExactly(d.gate, reviews.logs(d.key), reviews.fingerprints(d.key));
    }
  }

  lemma {:induction false} KeyIssueMembers(statuses: map<string, Status>, keys: seq<string>, issue: Issue)
    ensures issue in KeyIssues(statuses, keys) <==> exists key :: key in keys && KeyIssue(statuses, key) == Some(issue)
  {
    if keys != [] {
      var n := |keys| - 1;
      KeyIssueMembers(statuses, keys[..n], issue);
      assert keys == keys[..n] + [keys[n]];
      assert forall key :: key in keys <==> key in keys[..n] || key == keys[n];
    }
  }

  lemma {:induction false} GateIssueMembers(statuses: map<string, Status>, definitions: seq<Definition>, reviews: Reviews, issue: Issue)
    ensures issue in GateIssues(statuses, definitions, reviews) <==>
              exists d :: d in definitions && GateIssue(statuses, d, reviews.logs(d.key), reviews.fingerprints(d.key)) == Some(issue)
  {
    hide GateSatisfied;
    if definitions != [] {
      var n := |definitions| - 1;
      GateIssueMembers(statuses, definitions[..n], reviews, issue);
      assert definitions == definitions[..n] + [definitions[n]];
      assert forall d :: d in definitions <==> d in definitions[..n] || d == definitions[n];
    }
  }

  // ---------------------------------------------------------------- the item keys

  /** A work item counts for a required key only through path normalization: other keys are never found. */
  lemma {:induction false} StatusKeysAreNormalized(items: seq<WorkItem>, key: string)
    ensures key in StatusByKey(items) <==> key != "" && exists i :: 0 <= i < |items| && Paths.Normalize(items[i].key) == key
  {
    hide Paths.Normalize;
    if items != [] {
      var n := |items| - 1;
      StatusKeysAreNormalized(items[..n], key);
      if i :| 0 <= i < |items| && Paths.Normalize(items[i].key) == key {
        assert i < n ==> items[..n][i] == items[i];
      }
      if i :| 0 <= i < n && Paths.Normalize(items[..n][i].key) == key {
        assert items[i] == items[..n][i];
      }
    }
  }

  /** A required key can be completed by some work items exactly when it is a plain path. */
  lemma CompletableExactly(key: string)
    ensures (exists items :: KeyComplete(StatusByKey(items), key)) <==> Paths.Plain(key)
  {
    hide Paths.Plain, StatusByKey;
    if items :| KeyComplete(StatusByKey(items), key) {
      if !Paths.Plain(key) {
        UnreachableKeyNeverDone(items, key);
      }
    }
    if Paths.Plain(key) {
      var items := CompletingItems({key});
    }
  }

  /** A required key that is no plain path is not complete, whatever the work items. */
  lemma {:induction false} UnreachableKeyNeverDone(items: seq<WorkItem>, key: string)
    requires !Paths.Plain(key)
    ensures !KeyComplete(StatusByKey(items), key)
  {
    hide Paths.Normalize, Paths.Plain;
    StatusKeysAreNormalized(items, key);
    Paths.ResultsExactly(key);
  }

  /** A list of required keys can be met exactly when every one of them, trimmed, is blank or a plain path. */
  lemma RequirementsMeetableExactly(requiredKeys: seq<string>)
    ensures (exists items :: Completes(items, TrimmedSet(requiredKeys))) <==> AllPlain(TrimmedSet(requiredKeys))
  {
    hide Completes, AllPlain, TrimmedSet;
    var required := TrimmedSet(requiredKeys);
    if items :| Completes(items, required) {
      CompletedIsPlain(items, required);
    }
    if AllPlain(required) {
      var items := CompletingItems(required);
    }
  }

  ghost predicate AllPlain(keys: set<string>) {
    forall key :: key in keys ==> Paths.Plain(key)
  }

  lemma CompletedIsPlain(items: seq<WorkItem>, required: set<string>)
    requires Completes(items, required)
    ensures AllPlain(required)
  {
    hide Paths.Plain, StatusByKey;
    forall key | key in required
      ensures Paths.Plain(key)
    {
      if !Paths.Plain(key) {
        UnreachableKeyNeverDone(items, key);
      }
    }
  }

  ghost predicate Completes(items: seq<WorkItem>, required: set<string>) {
    forall key :: key in required ==> KeyComplete(StatusByKey(items), key)
  }

  /** One complete item per key, its key spelled with a "." segment on either side. */
  lemma {:induction false} CompletingItems(keys: set<string>) returns (items: seq<WorkItem>)
    requires AllPlain(keys)
    ensures forall key :: key in StatusByKey(items) ==> KeyComplete(StatusByKey(items), key)
    ensures Completes(items, keys)
    decreases |keys|
  {
    hide Paths.Plain, Paths.Normalize;
    if keys == {} {
      items := [];
    } else {
      var key :| key in keys;
      var rest := CompletingItems(keys - {key});
      var item := WorkItem("./" + key + "/.", Complete);
      Paths.DottedNormalizes(key);
      items := rest + [item];
      assert items[..|rest|] == rest;
      assert StatusByKey(items) == StatusByKey(rest)[key := Complete];
      forall k | k in keys
        ensures KeyComplete(StatusByKey(items), k)
      {
        assert k == key || k in keys - {key};
      }
    }
  }

  /** Two keys that a workflow may require, being trimmed and short, and that nothing completes. */
  lemma KeysNeverCompleted(items: seq<WorkItem>)
    ensures Trimmed("a//b") && !KeyComplete(StatusByKey(items), "a//b")
    ensures Trimmed("../x") && !KeyComplete(StatusByKey(items), "../x")
  {
    hide StatusByKey, Paths.Plain;
    Paths.NotPlain();
    UnreachableKeyNeverDone(items, "a//b");
    UnreachableKeyNeverDone(items, "../x");
  }

  /** The last item of the key is complete, and every other one is complete or superseded. */
  ghost predicate StandsComplete(items: seq<WorkItem>, key: string) {
    && key != ""
    && (exists i :: 0 <= i < |items| && Paths.Normalize(items[i].key) == key && items[i].status == Complete
                    && forall j :: i < j < |items| ==> Paths.Normalize(items[j].key) != key)
    && forall j :: 0 <= j < |items| && Paths.Normalize(items[j].key) == key ==>
         items[j].status == Complete || items[j].status == Superseded
  }

  /** When a key is complete, said of the items themselves. */
  lemma {:induction false} CompleteExactly(items: seq<WorkItem>, key: string)
    ensures KeyComplete(StatusByKey(items), key) <==> StandsComplete(items, key)
  {
    hide Paths.Normalize;
    StatusPriority(items, key);
    if items != [] {
      var n := |items| - 1;
      var front, last := items[..n], items[n];
      CompleteExactly(front, key);
      StatusPriority(front, key);
      if Paths.Normalize(last.key) == key != "" {
        LastStands(items, key);
      } else {
        FrontStands(items, key);
        StatusKeysAreNormalized(items, key);
      }
    }
  }

  lemma LastStands(items: seq<WorkItem>, key: string)
    requires items != [] && Paths.Normalize(items[|items| - 1].key) == key != ""
    ensures KeyComplete(StatusByKey(items), key) <==> StandsComplete(items, key)
  {
    hide Paths.Normalize;
    var n := |items| - 1;
    var front := items[..n];
    StatusPriority(items, key);
    StatusAttained(front, key);
    if StandsComplete(items, key) {
      assert items[n].status == Complete;
      if key in StatusByKey(front) {
        var i :| 0 <= i < n && Paths.Normalize(front[i].key) == key && front[i].status == StatusByKey(front)[key];
        assert items[i] == front[i];
      }
    }
    if KeyComplete(StatusByKey(items), key) {
      forall j | 0 <= j < |items| && Paths.Normalize(items[j].key) == key
        ensures items[j].status == Complete || items[j].status == Superseded
      {
        assert Priority(items[j].status) == 0;
      }
    }
  }

  lemma FrontStands(items: seq<WorkItem>, key: string)
    requires items != [] && !(Paths.Normalize(items[|items| - 1].key) == key != "")
    ensures StandsComplete(items, key) <==> StandsComplete(items[..|items| - 1], key)
  {
    hide Paths.Normalize;
    var n := |items| - 1;
    var front := items[..n];
    if StandsComplete(items, key) {
      var i :| 0 <= i < |items| && Paths.Normalize(items[i].key) == key && items[i].status == Complete
               && forall j :: i < j < |items| ==> Paths.Normalize(items[j].key) != key;
      assert front[i] == items[i];
    }
    if StandsComplete(front, key) {
      var i :| 0 <= i < n && Paths.Normalize(front[i].key) == key && front[i].status == Complete
               && forall j :: i < j < n ==> Paths.Normalize(front[j].key) != key;
      assert items[i] == front[i];
      assert forall j :: 0 <= j < n ==> items[j] == front[j];
    }
  }

  /** A key's status is that of one of its items. */
  lemma {:induction false} StatusAttained(items: seq<WorkItem>, key: string)
    ensures key in StatusByKey(items) ==>
              exists i :: 0 <= i < |items| && Paths.Normalize(items[i].key) == key && items[i].status == StatusByKey(items)[key]
  {
    hide Paths.Normalize;
    if items != [] {
      var n := |items| - 1;
      StatusAttained(items[..n], key);
      if key in StatusByKey(items[..n]) {
        var i :| 0 <= i < n && Paths.Normalize(items[..n][i].key) == key && items[..n][i].status == StatusByKey(items[..n])[key];
        assert items[i] == items[..n][i];
      }
    }
  }

  /** Duplicate items of a key: the key is complete only if none of them is pending, in progress or blocked. */
  lemma {:induction false} CompleteNeedsAll(items: seq<WorkItem>, key: string)
    requires KeyComplete(StatusByKey(items), key)
    ensures forall i :: 0 <= i < |items| && Paths.Normalize(items[i].key) == key ==>
              items[i].status != Pending && items[i].status != InProgress && items[i].status != Blocked
  {
    hide Paths.Normalize;
    CompleteExactly(items, key);
  }

  ghost predicate SomeItemIs(items: seq<WorkItem>, key: string, s: Status) {
    exists i :: 0 <= i < |items| && Paths.Normalize(items[i].key) == key && items[i].status == s
  }

  /** The status of a key none of whose items is done: blocked before in progress before pending. */
  lemma PressingStatus(items: seq<WorkItem>, key: string)
    requires key in StatusByKey(items)
    ensures var s := StatusByKey(items)[key];
            && (s == Blocked <==> SomeItemIs(items, key, Blocked))
            && (s == InProgress <==> SomeItemIs(items, key, InProgress) && !SomeItemIs(items, key, Blocked))
            && (s == Pending <==> (SomeItemIs(items, key, Pending) && !SomeItemIs(items, key, InProgress)
                                   && !SomeItemIs(items, key, Blocked)))
  {
    hide Paths.Normalize, StatusByKey;
    StatusPriority(items, key);
    StatusAttained(items, key);
  }

  lemma {:induction false} StatusPriority(items: seq<WorkItem>, key: string)
    ensures key in StatusByKey(items) ==> forall i :: 0 <= i < |items| && Paths.Normalize(items[i].key) == key ==>
              Priority(items[i].status) <= Priority(StatusByKey(items)[key])
    ensures key !in StatusByKey(items) && key != "" ==> forall i :: 0 <= i < |items| ==> Paths.Normalize(items[i].key) != key
  {
    hide Paths.Normalize;
    if items != [] {
      var n := |items| - 1;
      StatusPriority(items[..n], key);
      forall i | 0 <= i < |items| && Paths.Normalize(items[i].key) == key && key != ""
        ensures key in StatusByKey(items) && Priority(items[i].status) <= Priority(StatusByKey(items)[key])
      {
        if i < n {
          assert items[..n][i] == items[i];
        }
      }
    }
    if key == "" {
      StatusKeysAreNormalized(items, key);
    }
  }

  // ---------------------------------------------------------------- Review and Done agree

  /** A gate that Review has just reported complete raises no issue at the same fingerprint. */
  lemma ReviewedGateIsDone(d: Definition, events: seq<Event>, e: Event, statuses: map<string, Status>)
    requires e.Run?
    ensures var (s', reply) := Step(Some(d.gate), Reached(Some(d.gate), events), e);
            reply.Reviewed? && reply.status == Complete ==>
              s'.status == Some(Complete) && GateIssue(statuses, d, s'.log, e.fingerprint).None?
  {
    CompleteMeansSatisfied(d.gate, events, e);
  }

  /** Under the new-fingerprint rule no later request brings the issue back. */
  lemma ReviewedGateStaysDone(d: Definition, events: seq<Event>, e: Event, later: seq<Event>, statuses: map<string, Status>)
    requires e.Run? && d.gate.newFingerprint
    ensures var (s', reply) := Step(Some(d.gate), Reached(Some(d.gate), events), e);
            reply.Reviewed? && reply.status == Complete ==>
              GateIssue(statuses, d, Play(Some(d.gate), s', later).log, e.fingerprint).None?
  {
    CompleteMeansSatisfied(d.gate, events, e);
    var (s', reply) := Step(Some(d.gate), Reached(Some(d.gate), events), e);
    if reply.Reviewed? && reply.status == Complete {
      PassIsPermanent(d.gate, s', later, e.fingerprint);
    }
  }

  /** A complete task is not enough: without a really passing run the gate keeps its issue. */
  lemma NotesDoNotCloseGates(d: Definition, events: seq<Event>, statuses: map<string, Status>, fingerprint: string)
    requires d.gate.runnable && KeyComplete(statuses, d.key)
    requires forall i :: 0 <= i < |events| && events[i].Run? && (!events[i].run.failed || events[i].run.exitCode == Some(0)) ==>
               d.gate.newFingerprint && events[i].fingerprint != fingerprint
    ensures GateIssue(statuses, d, Reached(Some(d.gate), events).log, fingerprint).Some?
  {
    var log := Reached(Some(d.gate), events).log;
    if GateSatisfied(d.gate, log, fingerprint) {
      SatisfactionIsEarned(d.gate, events, fingerprint);
    }
  }

  // ---------------------------------------------------------------- what was reviewed

  /** A project seen through the effective scope at one moment, and the entries collected then. */
  datatype View = View(snapshot: F.Snapshot, scope: seq<string>, entries: seq<F.Entry>)

  /** The entries are those collected from a project of canonical names without outer spaces. */
  ghost predicate Seen(winner: F.Winner, v: View) {
    && F.ValidSnapshot(v.snapshot) && F.ValidScope(v.scope) && F.CanonicalWalks(v.snapshot, v.scope)
    && F.Listing(v.snapshot, F.Shown(winner, v.snapshot, v.scope), v.entries)
    && forall p :: p in F.Shown(winner, v.snapshot, v.scope) ==> Trimmed(p)
  }

  /** The same paths are in view, with the same found at each. */
  ghost predicate SameContents(winner: F.Winner, a: View, b: View) {
    && F.Shown(winner, a.snapshot, a.scope).Keys == F.Shown(winner, b.snapshot, b.scope).Keys
    && forall p :: p in F.Shown(winner, a.snapshot, a.scope) ==> F.SameFound(a.snapshot, b.snapshot, p)
  }

  ghost predicate Injective(hash: string -> string) {
    forall x, y :: hash(x) == hash(y) ==> x == y
  }

  /** Views with one fingerprint have the same contents. */
  lemma FingerprintTellsView(hash: string -> string, header: seq<string>, winner: F.Winner, a: View, b: View)
    requires Injective(hash) && F.Decides(winner) && Seen(winner, a) && Seen(winner, b)
    requires hash(F.Stream(header, a.entries)) == hash(F.Stream(header, b.entries))
    ensures SameContents(winner, a, b)
  {
    hide F.Stream, F.Shown, F.Listing, F.SameFound;
    F.FingerprintTellsContents(header, winner, a.snapshot, a.scope, b.snapshot, b.scope, a.entries, b.entries);
  }

  /** Run i passed on contents the same as those now in view. */
  ghost predicate PassedOnSame(events: seq<Event>, winner: F.Winner, views: seq<View>, now: View, i: nat)
    requires i < |events| == |views|
  {
    events[i].Run? && (!events[i].run.failed || events[i].run.exitCode == Some(0)) && SameContents(winner, views[i], now)
  }

  /**
   * From the fingerprints to the files: a closeout that finds the definition of done met, for a
   * required gate under the new-fingerprint rule, stands on a run that passed when the scope showed
   * the same paths with the same contents as now.
   */
  lemma DoneStandsOnReviewedContents(
    d: Definition, events: seq<Event>, views: seq<View>, now: View,
    hash: string -> string, header: seq<string>, winner: F.Winner,
    statuses: map<string, Status>, required: set<string>, definitions: seq<Definition>, reviews: Reviews)
    requires DefinitionOfDone(statuses, required, definitions, reviews)
    requires d in definitions && d.key in required && d.gate.runnable && d.gate.newFingerprint
    requires reviews.logs(d.key) == Reached(Some(d.gate), events).log
    requires reviews.fingerprints(d.key) == hash(F.Stream(header, now.entries))
    requires |views| == |events| && Injective(hash) && F.Decides(winner) && Seen(winner, now)
    requires forall i :: 0 <= i < |events| && events[i].Run? ==>
               Seen(winner, views[i]) && events[i].fingerprint == hash(F.Stream(header, views[i].entries))
    ensures exists i :: 0 <= i < |events| && PassedOnSame(events, winner, views, now, i)
  {
    hide F.Stream, Seen, SameContents, Injective, F.Decides, GateSatisfied, Reached;
    var k :| 0 <= k < |definitions| && definitions[k] == d;
    assert KeyComplete(statuses, d.key);
    SatisfactionIsEarned(d.gate, events, reviews.fingerprints(d.key));
    var i :| 0 <= i < |events| && events[i].Run? && (!events[i].run.failed || events[i].run.exitCode == Some(0))
             && (d.gate.newFingerprint ==> events[i].fingerprint == reviews.fingerprints(d.key));
    FingerprintTellsView(hash, header, winner, views[i], now);
    assert PassedOnSame(events, winner, views, now, i);
  }

  // ---------------------------------------------------------------- the decision

  datatype RunStatus = Accepted | AcceptedWithWarnings

  datatype RunSummary = RunSummary(status: RunStatus, filesChanged: seq<string>, issues: seq<Issue>)

  /** What the caller of Done supplies, and the detected delta, if it can be relied on. */
  datatype Delta = Delta(reliable: bool, detected: seq<string>, supplied: seq<string>, noFileChanges: bool)

  /** A requirement of the workflow; `applies` is its selector for the receipt's phase and tags. */
  datatype Requirement = Requirement(definition: Definition, applies: seq<string> -> bool)

  type Workflow = seq<Requirement>

  const VERIFY_TESTS := "verify:tests"

  function KeysOf(definitions: seq<Definition>): seq<string> {
    seq(|definitions|, i requires 0 <= i < |definitions| => definitions[i].key)
  }

  /** Of the requirements that apply, the first of each key. */
  function RequiredDefinitions(workflow: Workflow, files: seq<string>): seq<Definition> {
    if workflow == [] then []
    else
      var rest := RequiredDefinitions(workflow[..|workflow| - 1], files);
      var last := workflow[|workflow| - 1];
      if last.applies(files) && last.definition.key !in KeysOf(rest) then rest + [last.definition] else rest
  }

  /** matchWorkflowRequiredTaskDefinitions */
  method MatchRequirements(workflow: Workflow, files: seq<string>) returns (matches: seq<Definition>)
    ensures matches == RequiredDefinitions(workflow, files)
  {
    var seen: set<string> := {};
    matches := [];
    for i := 0 to |workflow|
      invariant matches == RequiredDefinitions(workflow[..i], files)
      invariant forall key :: key in seen <==> key in KeysOf(matches)
    {
      assert workflow[..i + 1][..i] == workflow[..i];
      var requirement := workflow[i];
      if !requirement.applies(files) {
        continue;
      }
      if requirement.definition.key in seen {
        continue;
      }
      seen := seen + {requirement.definition.key};
      assert KeysOf(matches + [requirement.definition]) == KeysOf(matches) + [requirement.definition.key];
      matches := matches + [requirement.definition];
    }
    assert workflow[..|workflow|] == workflow;
  }

  /** No key is required twice, and a key is required exactly when some requirement of it applies. */
  lemma RequirementsMeaning(workflow: Workflow, files: seq<string>)
    ensures var definitions := RequiredDefinitions(workflow, files);
            && DistinctKeys(definitions)
            && (forall key :: key in KeysOf(definitions) <==> Applies(workflow, files, key))
  {
    RequiredOnce(workflow, files);
    forall key
      ensures key in KeysOf(RequiredDefinitions(workflow, files)) <==> Applies(workflow, files, key)
    {
      RequiredExactly(workflow, files, key);
    }
  }

  ghost predicate Applies(workflow: Workflow, files: seq<string>, key: string) {
    exists i :: 0 <= i < |workflow| && workflow[i].applies(files) && workflow[i].definition.key == key
  }

  ghost predicate DistinctKeys(definitions: seq<Definition>) {
    forall i, j :: 0 <= i < j < |definitions| ==> definitions[i].key != definitions[j].key
  }

  lemma {:induction false} RequiredOnce(workflow: Workflow, files: seq<string>)
    ensures DistinctKeys(RequiredDefinitions(workflow, files))
  {
    if workflow != [] {
      var last := workflow[|workflow| - 1];
      RequiredOnce(workflow[..|workflow| - 1], files);
      var rest := RequiredDefinitions(workflow[..|workflow| - 1], files);
      if last.definition.key !in KeysOf(rest) {
        AppendDistinct(rest, last.definition);
      }
    }
  }

  lemma AppendDistinct(definitions: seq<Definition>, d: Definition)
    requires DistinctKeys(definitions) && d.key !in KeysOf(definitions)
    ensures DistinctKeys(definitions + [d])
  {
    forall i | 0 <= i < |definitions|
      ensures definitions[i].key != d.key
    {
      assert KeysOf(definitions)[i] == definitions[i].key;
    }
  }

  lemma {:induction false} RequiredExactly(workflow: Workflow, files: seq<string>, key: string)
    ensures key in KeysOf(RequiredDefinitions(workflow, files)) <==> Applies(workflow, files, key)
  {
    if workflow != [] {
      var front, last := workflow[..|workflow| - 1], workflow[|workflow| - 1];
      RequiredExactly(front, files, key);
      AppliesFront(workflow, files, key);
      var rest := RequiredDefinitions(front, files);
      assert KeysOf(rest + [last.definition]) == KeysOf(rest) + [last.definition.key];
    }
  }

  lemma AppliesFront(workflow: Workflow, files: seq<string>, key: string)
    requires workflow != []
    ensures var front, last := workflow[..|workflow| - 1], workflow[|workflow| - 1];
            Applies(workflow, files, key) <==> Applies(front, files, key) || (last.applies(files) && last.definition.key == key)
  {
    var front := workflow[..|workflow| - 1];
    if i :| 0 <= i < |workflow| && workflow[i].applies(files) && workflow[i].definition.key == key {
      assert i < |front| ==> front[i] == workflow[i];
    }
    if i :| 0 <= i < |front| && front[i].applies(files) && front[i].definition.key == key {
      assert workflow[i] == front[i];
    }
  }

  /** Without configured requirements the tests are required once files have changed. */
  function RequiredKeys(workflow: Workflow, files: seq<string>): seq<string> {
    if workflow != [] then KeysOf(RequiredDefinitions(workflow, files))
    else if files != [] then [VERIFY_TESTS] else []
  }

  /** Nothing is required, or the definition of done is met. */
  ghost predicate Finished(items: seq<WorkItem>, workflow: Workflow, files: seq<string>, reviews: Reviews) {
    TrimmedSet(RequiredKeys(workflow, files)) == {}
    || DefinitionOfDone(StatusByKey(items), TrimmedSet(RequiredKeys(workflow, files)), RequiredDefinitions(workflow, files), reviews)
  }

  /** The requirement applies and is the first of its key that does. */
  ghost predicate FirstApplying(workflow: Workflow, files: seq<string>, i: nat)
    requires i < |workflow|
  {
    workflow[i].applies(files)
    && forall j :: 0 <= j < i && workflow[j].applies(files) ==> workflow[j].definition.key != workflow[i].definition.key
  }

  /**
   * Nothing keeps a closeout back.  Without a workflow: no file changed, or the tests are complete.
   * With one: no requirement that applies has a key, or every such key is complete and every
   * complete gate of the first requirement for its key shows its pass.
   */
  ghost predicate NothingMissing(items: seq<WorkItem>, workflow: Workflow, files: seq<string>, reviews: Reviews) {
    if workflow == [] then files == [] || StandsComplete(items, "verify:tests")
    else
      || (forall i :: 0 <= i < |workflow| && workflow[i].applies(files) ==> Trim(workflow[i].definition.key) == "")
      || ((forall i :: 0 <= i < |workflow| && workflow[i].applies(files) && Trim(workflow[i].definition.key) != "" ==>
             StandsComplete(items, Trim(workflow[i].definition.key)))
          && forall i :: 0 <= i < |workflow| && FirstApplying(workflow, files, i) ==> GateStands(items, workflow[i].definition, reviews))
  }

  ghost predicate GateStands(items: seq<WorkItem>, d: Definition, reviews: Reviews) {
    d.gate.runnable && StandsComplete(items, d.key) ==> LogShowsPass(d.gate, reviews.logs(d.key), reviews.fingerprints(d.key))
  }

  lemma {:induction false} TrimmedSetMeaning(values: seq<string>, key: string)
    ensures key in TrimmedSet(values) <==> key != "" && exists i :: 0 <= i < |values| && Trim(values[i]) == key
  {
    hide Trim;
    if values != [] {
      var n := |values| - 1;
      TrimmedSetMeaning(values[..n], key);
      if i :| 0 <= i < |values| && Trim(values[i]) == key {
        assert i < n ==> values[..n][i] == values[i];
      }
      if i :| 0 <= i < n && Trim(values[..n][i]) == key {
        assert values[i] == values[..n][i];
      }
    }
  }

  /** The required definitions are the first applying ones of their keys. */
  lemma {:induction false} RequiredAreFirst(workflow: Workflow, files: seq<string>, d: Definition)
    ensures d in RequiredDefinitions(workflow, files) <==>
            exists i :: 0 <= i < |workflow| && FirstApplying(workflow, files, i) && workflow[i].definition == d
  {
    if workflow != [] {
      var n := |workflow| - 1;
      var front, last := workflow[..n], workflow[n];
      RequiredAreFirst(front, files, d);
      RequiredExactly(front, files, last.definition.key);
      FirstFront(workflow, files);
      if i :| 0 <= i < |workflow| && FirstApplying(workflow, files, i) && workflow[i].definition == d {
        if i < n {
          assert front[i] == workflow[i] && FirstApplying(front, files, i);
        }
      }
      if i :| 0 <= i < n && FirstApplying(front, files, i) && front[i].definition == d {
        assert workflow[i] == front[i] && FirstApplying(workflow, files, i);
      }
      if last.applies(files) && last.definition.key !in KeysOf(RequiredDefinitions(front, files)) {
        assert FirstApplying(workflow, files, n);
      }
    }
  }

  lemma FirstFront(workflow: Workflow, files: seq<string>)
    requires workflow != []
    ensures var n := |workflow| - 1;
            && (forall i :: 0 <= i < n ==> (FirstApplying(workflow, files, i) <==> FirstApplying(workflow[..n], files, i)))
            && (FirstApplying(workflow, files, n) <==>
                workflow[n].applies(files) && !Applies(workflow[..n], files, workflow[n].definition.key))
  {
    var n := |workflow| - 1;
    var front := workflow[..n];
    assert forall j :: 0 <= j < n ==> front[j] == workflow[j];
  }

  /** The issues' condition, said of the inputs. */
  lemma FinishedExactly(items: seq<WorkItem>, workflow: Workflow, files: seq<string>, reviews: Reviews)
    ensures Finished(items, workflow, files, reviews) <==> NothingMissing(items, workflow, files, reviews)
  {
    hide StandsComplete, StatusByKey, GateSatisfied, LogShowsPass, FirstApplying, TrimmedSet, Trim, RequiredKeys, GateStands;
    if workflow == [] {
      DefaultExactly(items, files, reviews);
    } else {
      GatesExactly(items, workflow, files, reviews);
      KeysCompleteExactly(items, workflow, files);
    }
  }

  lemma KeysCompleteExactly(items: seq<WorkItem>, workflow: Workflow, files: seq<string>)
    requires workflow != []
    ensures var keys := TrimmedSet(RequiredKeys(workflow, files));
            && (keys == {} <==> forall i :: 0 <= i < |workflow| && workflow[i].applies(files) ==> Trim(workflow[i].definition.key) == "")
            && ((forall key :: key in keys ==> KeyComplete(StatusByKey(items), key)) <==>
                forall i :: 0 <= i < |workflow| && workflow[i].applies(files) && Trim(workflow[i].definition.key) != "" ==>
                  StandsComplete(items, Trim(workflow[i].definition.key)))
  {
    hide StandsComplete, StatusByKey, TrimmedSet, Trim, RequiredKeys, KeyComplete;
    var keys := TrimmedSet(RequiredKeys(workflow, files));
    KeysExactly(workflow, files);
    forall key
      ensures KeyComplete(StatusByKey(items), key) <==> StandsComplete(items, key)
    {
      CompleteExactly(items, key);
    }
    forall i | 0 <= i < |workflow| && workflow[i].applies(files) && Trim(workflow[i].definition.key) != ""
      ensures Trim(workflow[i].definition.key) in keys
    {
    }
  }

  lemma DefaultExactly(items: seq<WorkItem>, files: seq<string>, reviews: Reviews)
    ensures Finished(items, [], files, reviews) <==> files == [] || StandsComplete(items, "verify:tests")
  {
    hide StandsComplete, StatusByKey, TrimmedSet;
    CompleteExactly(items, "verify:tests");
    forall key
      ensures key in TrimmedSet(RequiredKeys([], files)) <==> files != [] && key == "verify:tests"
    {
      TestsTrimmed();
      TrimmedSetMeaning(RequiredKeys([], files), key);
      assert files != [] ==> RequiredKeys([], files)[0] == "verify:tests";
    }
    assert "verify:tests" !in {} && (files != [] ==> "verify:tests" in TrimmedSet(RequiredKeys([], files)));
  }

  lemma TestsTrimmed()
    ensures Trim("verify:tests") == "verify:tests"
  {
    assert "verify:tests"[0] == 'v' && "verify:tests"[11] == 's';
    TrimShape("verify:tests");
  }

  lemma KeysExactly(workflow: Workflow, files: seq<string>)
    requires workflow != []
    ensures forall key :: key in TrimmedSet(RequiredKeys(workflow, files)) <==>
              key != "" && exists i :: 0 <= i < |workflow| && workflow[i].applies(files) && Trim(workflow[i].definition.key) == key
  {
    hide Trim, TrimmedSet, RequiredDefinitions;
    var definitions := RequiredDefinitions(workflow, files);
    forall key
      ensures key in TrimmedSet(RequiredKeys(workflow, files)) <==>
              key != "" && exists i :: 0 <= i < |workflow| && workflow[i].applies(files) && Trim(workflow[i].definition.key) == key
    {
      TrimmedSetMeaning(KeysOf(definitions), key);
      if i :| 0 <= i < |KeysOf(definitions)| && Trim(KeysOf(definitions)[i]) == key {
        RequiredExactly(workflow, files, KeysOf(definitions)[i]);
        assert KeysOf(definitions)[i] in KeysOf(definitions);
      }
      if i :| 0 <= i < |workflow| && workflow[i].applies(files) && Trim(workflow[i].definition.key) == key {
        RequiredExactly(workflow, files, workflow[i].definition.key);
        assert Applies(workflow, files, workflow[i].definition.key);
        var k :| 0 <= k < |KeysOf(definitions)| && KeysOf(definitions)[k] == workflow[i].definition.key;
      }
    }
  }

  lemma GatesExactly(items: seq<WorkItem>, workflow: Workflow, files: seq<string>, reviews: Reviews)
    ensures var definitions := RequiredDefinitions(workflow, files);
            (forall i :: 0 <= i < |definitions| && definitions[i].gate.runnable && KeyComplete(StatusByKey(items), definitions[i].key) ==>
               GateSatisfied(definitions[i].gate, reviews.logs(definitions[i].key), reviews.fingerprints(definitions[i].key)))
            <==> forall i :: 0 <= i < |workflow| && FirstApplying(workflow, files, i) ==> GateStands(items, workflow[i].definition, reviews)
  {
    hide StandsComplete, StatusByKey, GateSatisfied, LogShowsPass, FirstApplying, RequiredDefinitions, KeyComplete, GateStands;
    var definitions := RequiredDefinitions(workflow, files);
    if forall i :: 0 <= i < |definitions| ==> GateStands(items, definitions[i], reviews) {
      forall i | 0 <= i < |workflow| && FirstApplying(workflow, files, i)
        ensures GateStands(items, workflow[i].definition, reviews)
      {
        RequiredAreFirst(workflow, files, workflow[i].definition);
        assert workflow[i].definition in definitions;
        var k :| 0 <= k < |definitions| && definitions[k] == workflow[i].definition;
      }
    }
    if forall i :: 0 <= i < |workflow| && FirstApplying(workflow, files, i) ==> GateStands(items, workflow[i].definition, reviews) {
      forall k | 0 <= k < |definitions|
        ensures GateStands(items, definitions[k], reviews)
      {
        RequiredAreFirst(workflow, files, definitions[k]);
        assert definitions[k] in definitions;
        var i :| 0 <= i < |workflow| && FirstApplying(workflow, files, i) && workflow[i].definition == definitions[k];
      }
    }
    GatesByDefinition(items, definitions, reviews);
  }

  lemma GatesByDefinition(items: seq<WorkItem>, definitions: seq<Definition>, reviews: Reviews)
    ensures (forall i :: 0 <= i < |definitions| && definitions[i].gate.runnable && KeyComplete(StatusByKey(items), definitions[i].key) ==>
               GateSatisfied(definitions[i].gate, reviews.logs(definitions[i].key), reviews.fingerprints(definitions[i].key)))
            <==> forall i :: 0 <= i < |definitions| ==> GateStands(items, definitions[i], reviews)
  {
    hide StandsComplete, StatusByKey, GateSatisfied, LogShowsPass, KeyComplete;
    forall i | 0 <= i < |definitions|
      ensures GateStands(items, definitions[i], reviews) <==>
              (definitions[i].gate.runnable && KeyComplete(StatusByKey(items), definitions[i].key) ==>
                 GateSatisfied(definitions[i].gate, reviews.logs(definitions[i].key), reviews.fingerprints(definitions[i].key)))
    {
      CompleteExactly(items, definitions[i].key);
      SatisfiedExactly(definitions[i].gate, reviews.logs(definitions[i].key), reviews.fingerprints(definitions[i].key));
    }
  }

  /** The issues of a closeout: those of the required keys in order, then those of their gates; none where no key is required. */
  ghost predicate IssueList(items: seq<WorkItem>, workflow: Workflow, files: seq<string>, reviews: Reviews, issues: seq<Issue>) {
    exists keys :: StrictlySorted(keys) && Elements(keys) == TrimmedSet(RequiredKeys(workflow, files))
      && issues == if keys == [] then []
                   else KeyIssues(StatusByKey(items), keys)
                        + GateIssues(StatusByKey(items), RequiredDefinitions(workflow, files), reviews)
  }

  lemma ListOfIssues(items: seq<WorkItem>, workflow: Workflow, files: seq<string>, reviews: Reviews,
                     requiredKeys: seq<string>, definitions: seq<Definition>, issues: seq<Issue>)
    requires requiredKeys == RequiredKeys(workflow, files) && definitions == RequiredDefinitions(workflow, files)
    requires TrimmedSet(requiredKeys) == {} ==> issues == []
    requires TrimmedSet(requiredKeys) != {} ==>
               exists keys :: StrictlySorted(keys) && Elements(keys) == TrimmedSet(requiredKeys)
                 && issues == KeyIssues(StatusByKey(items), keys) + GateIssues(StatusByKey(items), definitions, reviews)
    ensures IssueList(items, workflow, files, reviews, issues)
  {
    hide StrictlySorted, TrimmedSet, StatusByKey, KeyIssues, GateIssues, RequiredKeys, RequiredDefinitions;
    if TrimmedSet(requiredKeys) == {} {
      ScopeDelta.NothingSorted();
    }
  }

  datatype Verdict = Verdict(accepted: bool, violations: seq<ScopeDelta.Violation>, issues: seq<Issue>)

  /** The receipt's recorded runs. */
  class ReceiptRuns {
    var runs: seq<RunSummary>

    /**
     * Done: refused without effect exactly when the changed files are; rejected without effect
     * exactly in strict mode with something to complain about; otherwise recorded, plainly
     * accepted only if there was nothing.
     */
    method Done(strict: bool, delta: Delta, scopePaths: seq<string>, items: seq<WorkItem>, workflow: Workflow, reviews: Reviews)
      returns (result: Result<Verdict, string>)
      modifies this
      ensures var files := ScopeDelta.FilesChanged(delta.reliable, delta.detected, delta.supplied, delta.noFileChanges);
              && (result.Err? <==> files.Err?)
              && (result.Err? ==> runs == old(runs))
              && (result.Ok? ==>
                    var complained := ScopeDelta.Complained(delta.reliable, delta.detected, files.value, delta.supplied,
                                                            Paths.NormalizePathsSpec(scopePaths));
                    var Verdict(accepted, violations, issues) := result.value;
                    && Elements(ScopeDelta.PathsOf(violations)) == ScopeDelta.Reported(complained)
                    && (violations == [] <==> forall p :: p in complained ==> Paths.Normalize(p) == "")
                    && (forall v :: v in violations ==>
                          v.reason == ScopeDelta.LineFor(delta.reliable, delta.detected, files.value, delta.supplied,
                                                         Paths.NormalizePathsSpec(scopePaths), v.path))
                    && (issues == [] <==> NothingMissing(items, workflow, files.value, reviews))
                    && IssueList(items, workflow, files.value, reviews, issues)
                    && (accepted <==> !strict || (violations == [] && issues == []))
                    && runs == old(runs) + (if !accepted then [] else
                         [RunSummary(if violations == [] && issues == [] then Accepted else AcceptedWithWarnings, files.value, issues)]))
    {
      hide ScopeDelta.LineFor, IssueList, KeyIssues, GateIssues, ScopeDelta.Complained, ScopeDelta.Reported, Paths.Normalize, DefinitionOfDone, StatusByKey, TrimmedSet;
      hide ScopeDelta.FilesChanged, StrictlySorted, KeysOf, NothingMissing;
      var resolved := ScopeDelta.FilesChanged(delta.reliable, delta.detected, delta.supplied, delta.noFileChanges);
      if resolved.Err? {
        return Err(resolved.error);
      }
      var filesChanged := resolved.value;
      var allowed := Paths.NormalizePaths(scopePaths);
      var violations := ScopeDelta.CompletionViolations(delta.reliable, delta.detected, filesChanged, delta.supplied, allowed);
      var requiredKeys := if filesChanged != [] then [VERIFY_TESTS] else [];
      var definitions: seq<Definition> := [];
      if workflow != [] {
        definitions := MatchRequirements(workflow, filesChanged);
        requiredKeys := KeysOf(definitions);
      }
      var issues := EvaluateIssues(items, requiredKeys, definitions, reviews);
      FinishedExactly(items, workflow, filesChanged, reviews);
      assert IssueList(items, workflow, filesChanged, reviews, issues) by {
        ListOfIssues(items, workflow, filesChanged, reviews, requiredKeys, definitions, issues);
      }
      if strict && (|violations| > 0 || |issues| > 0) {
        return Ok(Verdict(false, violations, issues));
      }
      var runStatus := Accepted;
      if |violations| > 0 {
        runStatus := AcceptedWithWarnings;
      }
      if |issues| > 0 && runStatus == Accepted {
        runStatus := AcceptedWithWarnings;
      }
      runs := runs + [RunSummary(runStatus, filesChanged, issues)];
      return Ok(Verdict(true, violations, issues));
    }
  }
}
