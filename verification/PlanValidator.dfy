/**
 The staged-plan validator (scripts/awm-feature-plan-validate.py, lines 149-352): its passes append
 errors to one list, and together they decide the shape of a root plan.

 Text fields hold what the script's trimmed() and normalized_list() read; a plan whose tasks field
 is not a list has no tasks.
 */
module PlanValidator {
  import opened Wrappers
  import opened Strings

  datatype RawTask =
    | NotAnObject
    | Task(key: string, status: string, summary: string, parent: string,
           dependsOn: seq<string>, criteria: seq<string>, references: seq<string>)

  datatype Plan = Plan(
    parent: string, title: string, objective: string,
    inScope: seq<string>, outOfScope: seq<string>, constraints: seq<string>, references: seq<string>,
    stages: Option<map<string, string>>, tasks: seq<RawTask>)

  datatype Error = Error(code: Code, subject: string)

  datatype Code =
    | ParentSet | MissingField | EmptyList | StagesMissing | StageUnset
    | NoTasks | TaskNotObject | TaskWithoutKey | DuplicateKey | SummaryMissing | UnknownParent | UnknownDependency
    | VerifyMissing | StageStatusDiffers
    | GateOwnsChildren | NonStageParent
    | StageMissing | StageHasParent | StageWithoutChildren | WrongPrefix | NotUnderStage
    | TooFewCriteria | NoReferences | TooManyReferences | VagueSummary | NoLeaf

  const SPEC := "stage:spec-outline"
  const REFINED := "stage:refined-spec"
  const PLANNED := "stage:implementation-plan"

  predicate IsStage(key: string) {
    key == SPEC || key == REFINED || key == PLANNED
  }

  function StageField(stage: string): string {
    if stage == SPEC then "spec_outline" else if stage == REFINED then "refined_spec" else "implementation_plan"
  }

  predicate AllowedPrefix(stage: string, key: string) {
    if stage == SPEC then HasPrefix(key, "spec:")
    else if stage == REFINED then HasPrefix(key, "refine:")
    else HasPrefix(key, "impl:") || HasPrefix(key, "tdd:")
  }

  predicate IsGate(key: string) {
    key == "verify:tests" || HasPrefix(key, "review:")
  }

  /** normalized_summary: lower case, words separated by single spaces. */
  function Lower(s: string): string {
    if s == [] then []
    else [if 'A' <= s[0] <= 'Z' then (s[0] as int + 32) as char else s[0]] + Lower(s[1..])
  }

  function Words(s: string): seq<string> {
    if s == [] then []
    else
      var rest := Words(s[1..]);
      if IsSpace(s[0]) then rest
      else if |s| > 1 && !IsSpace(s[1]) && rest != [] then [[s[0]] + rest[0]] + rest[1..]
      else [[s[0]]] + rest
  }

  lemma {:induction false} LowerExactly(s: string)
    ensures |Lower(s)| == |s|
    ensures forall i :: 0 <= i < |s| ==> Lower(s)[i] == if 'A' <= s[i] <= 'Z' then (s[i] as int + 32) as char else s[i]
  {
    if s != [] {
      LowerExactly(s[1..]);
    }
  }

  ghost predicate Spaceless(s: string) {
    forall i :: 0 <= i < |s| ==> !IsSpace(s[i])
  }

  /** The words of a text: none, one without a space, and those on both sides of a space. */
  lemma WordsExactly(a: string, space: char, b: string)
    requires IsSpace(space)
    ensures Words([]) == []
    ensures a != [] && Spaceless(a) ==> Words(a) == [a]
    ensures Words(a + [space] + b) == Words(a) + Words(b)
  {
    hide IsSpace;
    if a != [] && Spaceless(a) {
      OneWord(a);
    }
    WordsSplit(a, space, b);
  }

  lemma {:induction false} OneWord(s: string)
    requires s != [] && Spaceless(s)
    ensures Words(s) == [s]
  {
    hide IsSpace;
    if |s| == 1 {
      assert s[1..] == [] && Words([]) == [];
      assert s == [s[0]];
    } else {
      OneWord(s[1..]);
      assert s == [s[0]] + s[1..];
    }
  }

  lemma {:induction false} WordsSplit(a: string, space: char, b: string)
    requires IsSpace(space)
    ensures Words(a + [space] + b) == Words(a) + Words(b)
  {
    hide IsSpace;
    var s := a + [space] + b;
    if a == [] {
      assert s[0] == space && s[1..] == b;
    } else {
      assert s[0] == a[0] && s[1..] == a[1..] + [space] + b;
      WordsSplit(a[1..], space, b);
      if !IsSpace(a[0]) {
        if |a| == 1 {
          assert a[1..] == [] && s[1] == space;
        } else {
          assert s[1] == a[1];
          if !IsSpace(a[1]) {
            SomeWord(a[1..]);
          }
        }
      }
    }
  }

  lemma SomeWord(s: string)
    requires s != [] && !IsSpace(s[0])
    ensures Words(s) != []
  {
  }

  lemma {:induction false} WordsSpaceless(s: string)
    ensures forall i :: 0 <= i < |Words(s)| ==> Words(s)[i] != [] && ' ' !in Words(s)[i]
  {
    if s != [] {
      WordsSpaceless(s[1..]);
      assert IsSpace(' ');
    }
  }

  predicate Vague(summary: string) {
    Join(Words(Lower(summary)), ' ') in
      {"cleanup", "misc", "misc cleanup", "polish", "remaining", "remaining work", "wire the rest"}
  }

  /** A summary is too vague when its words, in lower case, are those of a catch-all phrase. */
  lemma VagueExactly(summary: string)
    ensures Vague(summary) <==>
              var w := Words(Lower(summary));
              || w == ["cleanup"] || w == ["misc"] || w == ["misc", "cleanup"] || w == ["polish"] || w == ["remaining"]
              || w == ["remaining", "work"] || w == ["wire", "the", "rest"]
  {
    hide Words, Lower, Join, Split;
    var w := Words(Lower(summary));
    Phrases();
    WordsSpaceless(Lower(summary));
    SamePhrase(w, ["cleanup"], "cleanup");
    SamePhrase(w, ["misc"], "misc");
    SamePhrase(w, ["misc", "cleanup"], "misc cleanup");
    SamePhrase(w, ["polish"], "polish");
    SamePhrase(w, ["remaining"], "remaining");
    SamePhrase(w, ["remaining", "work"], "remaining work");
    SamePhrase(w, ["wire", "the", "rest"], "wire the rest");
  }

  lemma Phrases()
    ensures Join(["cleanup"], ' ') == "cleanup" && Join(["misc"], ' ') == "misc" && Join(["polish"], ' ') == "polish"
    ensures Join(["remaining"], ' ') == "remaining" && Join(["misc", "cleanup"], ' ') == "misc cleanup"
    ensures Join(["remaining", "work"], ' ') == "remaining work" && Join(["wire", "the", "rest"], ' ') == "wire the rest"
  {
    assert ["misc", "cleanup"][1..] == ["cleanup"] && ["remaining", "work"][1..] == ["work"];
    assert ["wire", "the", "rest"][1..] == ["the", "rest"] && ["the", "rest"][1..] == ["rest"];
    assert Join(["rest"], ' ') == "rest" && Join(["the", "rest"], ' ') == "the rest";
  }

  lemma SamePhrase(words: seq<string>, phrase: seq<string>, text: string)
    requires phrase != [] && text != "" && Join(phrase, ' ') == text
    requires forall i :: 0 <= i < |words| ==> ' ' !in words[i]
    requires forall i :: 0 <= i < |phrase| ==> ' ' !in phrase[i]
    ensures Join(words, ' ') == text <==> words == phrase
  {
    hide Split;
    SplitJoin(phrase, ' ');
    if words != [] {
      SplitJoin(words, ' ');
    }
  }

  // ---------------------------------------------------------------- the live tasks

  type Tasks = map<string, RawTask>

  /** The tasks indexed so far: the first of a key counts, superseded ones and bad rows do not. */
  function Live(raw: seq<RawTask>): Tasks {
    if raw == [] then map[]
    else
      var rest := Live(raw[..|raw| - 1]);
      var t := raw[|raw| - 1];
      if t.NotAnObject? || t.key == "" || t.key in rest || t.status == "superseded" then rest
      else rest[t.key := t]
  }

  /** Every row is an object with a key that no live earlier row has. */
  ghost predicate RowsOk(raw: seq<RawTask>) {
    forall i :: 0 <= i < |raw| ==> RowOk(raw, i)
  }

  ghost predicate RowOk(raw: seq<RawTask>, i: nat)
    requires i < |raw|
  {
    raw[i].Task? && raw[i].key != "" && raw[i].key !in Live(raw[..i])
  }

  ghost predicate LiveTasks(live: Tasks) {
    forall k :: k in live ==> live[k].Task? && live[k].key == k && k != ""
  }

  /** A live task has a summary, and names only live tasks as parent and dependencies. */
  ghost predicate LinksOk(live: Tasks, k: string)
    requires k in live && live[k].Task?
  {
    && live[k].summary != ""
    && (live[k].parent == "" || live[k].parent in live)
    && forall d :: d in live[k].dependsOn ==> d in live
  }

  /** The live tasks: rows with a key that are not superseded, the first of each key. */
  lemma {:induction false} LiveExactly(raw: seq<RawTask>, k: string, t: RawTask)
    ensures k in Live(raw) && Live(raw)[k] == t <==>
              exists i :: 0 <= i < |raw| && raw[i] == t && Counts(t, k) && forall j :: 0 <= j < i ==> !Counts(raw[j], k)
  {
    if raw != [] {
      var n := |raw| - 1;
      var front := raw[..n];
      LiveExactly(front, k, t);
      assert forall j :: 0 <= j < n ==> front[j] == raw[j];
      if i :| 0 <= i < |raw| && raw[i] == t && Counts(t, k) && forall j :: 0 <= j < i ==> !Counts(raw[j], k) {
        assert i < n ==> front[i] == t;
      }
      if i :| 0 <= i < n && front[i] == t && Counts(t, k) && forall j :: 0 <= j < i ==> !Counts(front[j], k) {
        assert raw[i] == t;
      }
      NotLive(front, k);
    }
  }

  lemma {:induction false} NotLive(raw: seq<RawTask>, k: string)
    ensures k !in Live(raw) <==> forall j :: 0 <= j < |raw| ==> !Counts(raw[j], k)
  {
    if raw != [] {
      NotLive(raw[..|raw| - 1], k);
      assert forall j :: 0 <= j < |raw| - 1 ==> raw[..|raw| - 1][j] == raw[j];
    }
  }

  predicate Counts(t: RawTask, k: string) {
    t.Task? && t.key == k && k != "" && t.status != "superseded"
  }

  lemma {:induction false} LiveShape(raw: seq<RawTask>)
    ensures LiveTasks(Live(raw))
  {
    if raw != [] {
      LiveShape(raw[..|raw| - 1]);
    }
  }

  /** Parent keys and their child tasks. */
  type Children = map<string, seq<string>>

  ghost predicate ChildrenOf(live: Tasks, children: Children) {
    && (forall p :: p in children <==> p in live && exists k :: k in live && live[k].Task? && live[k].parent == p && p != "")
    && (forall p :: p in children ==> children[p] != [])
    && (forall p :: p in children ==> forall k :: k in children[p] <==> k in live && live[k].Task? && live[k].parent == p)
  }

  // ---------------------------------------------------------------- the error list

  class ErrorList {
    var items: seq<Error>

    constructor ()
      ensures items == []
    {
      items := [];
    }

    method Append(code: Code, subject: string)
      modifies this
      ensures items == old(items) + [Error(code, subject)]
    {
      items := items + [Error(code, subject)];
    }
  }

  // ---------------------------------------------------------------- index_tasks

  /** The first loop: live tasks by key, and their keys in order. */
  method CollectLive(raw: seq<RawTask>, errors: ErrorList) returns (live: Tasks, order: seq<string>)
    modifies errors
    ensures live == Live(raw) && Elements(order) == live.Keys
    ensures old(errors.items) <= errors.items && (errors.items == old(errors.items) <==> RowsOk(raw))
  {
    hide Elements, RowOk;
    live, order := map[], [];
    NoElements();
    for i := 0 to |raw|
      invariant live == Live(raw[..i]) && Elements(order) == live.Keys
      invariant old(errors.items) <= errors.items
      invariant errors.items == old(errors.items) <==> forall j :: 0 <= j < i ==> RowOk(raw, j)
    {
      assert raw[..i + 1][..i] == raw[..i];
      RowMeans(raw, i);
      var task := raw[i];
      if task.NotAnObject? {
        errors.Append(TaskNotObject, "");
        continue;
      }
      if task.key == "" {
        errors.Append(TaskWithoutKey, "");
        continue;
      }
      if task.key in live {
        errors.Append(DuplicateKey, task.key);
        continue;
      }
      if task.status == "superseded" {
        continue;
      }
      ElementsAppend(order, task.key);
      live := live[task.key := task];
      order := order + [task.key];
    }
    assert raw[..|raw|] == raw;
  }

  lemma NoElements()
    ensures Elements([]) == {}
  {
  }

  lemma RowMeans(raw: seq<RawTask>, i: nat)
    requires i < |raw|
    ensures RowOk(raw, i) <==> raw[i].Task? && raw[i].key != "" && raw[i].key !in Live(raw[..i])
  {
  }

  /** The children found among the first keys of the order. */
  function ChildrenAmong(live: Tasks, order: seq<string>): Children {
    if order == [] then map[]
    else
      var rest := ChildrenAmong(live, order[..|order| - 1]);
      var k := order[|order| - 1];
      if k in live && live[k].Task? && live[k].parent != "" && live[k].parent in live
      then rest[live[k].parent := (if live[k].parent in rest then rest[live[k].parent] else []) + [k]]
      else rest
  }

  lemma {:induction false} ChildrenAmongMeaning(live: Tasks, order: seq<string>)
    ensures forall p :: p in ChildrenAmong(live, order) ==>
              p in live && p != "" && ChildrenAmong(live, order)[p] != []
              && forall k :: k in ChildrenAmong(live, order)[p] ==> k in order && k in live && live[k].Task? && live[k].parent == p
    ensures forall k :: k in order && k in live && live[k].Task? && live[k].parent != "" && live[k].parent in live ==>
              live[k].parent in ChildrenAmong(live, order) && k in ChildrenAmong(live, order)[live[k].parent]
  {
    if order != [] {
      var n := |order| - 1;
      ChildrenAmongMeaning(live, order[..n]);
      assert order == order[..n] + [order[n]];
    }
  }

  lemma ChildrenComplete(live: Tasks, order: seq<string>)
    requires LiveTasks(live) && Elements(order) == live.Keys
    ensures ChildrenOf(live, ChildrenAmong(live, order))
  {
    ChildrenAmongMeaning(live, order);
    var children := ChildrenAmong(live, order);
    assert forall k :: k in live ==> k in Elements(order);
    forall p | p in children
      ensures p in live && p != "" && exists k :: k in live && live[k].Task? && live[k].parent == p
    {
      assert children[p][0] in children[p];
    }
    forall k | k in live && live[k].Task? && live[k].parent != "" && live[k].parent in live
      ensures live[k].parent in children && k in children[live[k].parent]
    {
      assert k in order;
    }
  }

  method IndexTasks(raw: seq<RawTask>, errors: ErrorList) returns (live: Tasks, children: Children)
    modifies errors
    ensures live == Live(raw) && LiveTasks(live) && ChildrenOf(live, children)
    ensures old(errors.items) <= errors.items
    ensures errors.items == old(errors.items) <==>
              raw != [] && RowsOk(raw) && forall k :: k in Live(raw) && Live(raw)[k].Task? ==> LinksOk(Live(raw), k)
  {
    hide Elements, RowsOk, ChildrenOf, LiveTasks;
    LiveShape(raw);
    if raw == [] {
      errors.Append(NoTasks, "");
      NoElements();
      ChildrenComplete(map[], []);
      return map[], map[];
    }
    var order;
    live, order := CollectLive(raw, errors);
    ghost var rows := errors.items;
    children := LinkTasks(live, order, errors);
    ChildrenComplete(live, order);
  }

  /** The second loop: summaries, parents and dependencies. */
  method LinkTasks(live: Tasks, order: seq<string>, errors: ErrorList) returns (children: Children)
    requires LiveTasks(live) && Elements(order) == live.Keys
    modifies errors
    ensures children == ChildrenAmong(live, order)
    ensures old(errors.items) <= errors.items
    ensures errors.items == old(errors.items) <==> forall k :: k in live && live[k].Task? ==> LinksOk(live, k)
  {
    children := map[];
    for i := 0 to |order|
      invariant children == ChildrenAmong(live, order[..i])
      invariant old(errors.items) <= errors.items
      invariant errors.items == old(errors.items) <==> forall j :: 0 <= j < i ==> LinkedAt(live, order[j])
    {
      assert order[..i + 1][..i] == order[..i];
      assert order[i] in Elements(order);
      var key := order[i];
      var task := live[key];
      ghost var before := errors.items;
      if task.summary == "" {
        errors.Append(SummaryMissing, key);
      }
      if task.parent != "" {
        if task.parent !in live {
          errors.Append(UnknownParent, task.parent);
        } else {
          children := children[task.parent := (if task.parent in children then children[task.parent] else []) + [key]];
        }
      }
      CheckDependencies(live, task.dependsOn, errors);
      assert errors.items == before <==> LinkedAt(live, key);
    }
    assert order[..|order|] == order;
    forall k | k in live
      ensures exists j :: 0 <= j < |order| && order[j] == k
    {
      assert k in Elements(order);
    }
  }

  ghost predicate LinkedAt(live: Tasks, k: string) {
    k in live && live[k].Task? ==> LinksOk(live, k)
  }

  method CheckDependencies(live: Tasks, dependsOn: seq<string>, errors: ErrorList)
    modifies errors
    ensures old(errors.items) <= errors.items
    ensures errors.items == old(errors.items) <==> forall d :: d in dependsOn ==> d in live
  {
    for i := 0 to |dependsOn|
      invariant old(errors.items) <= errors.items
      invariant errors.items == old(errors.items) <==> forall d :: d in dependsOn[..i] ==> d in live
    {
      assert dependsOn[..i + 1] == dependsOn[..i] + [dependsOn[i]];
      if dependsOn[i] !in live {
        errors.Append(UnknownDependency, dependsOn[i]);
      }
    }
    assert dependsOn[..|dependsOn|] == dependsOn;
  }

  // ---------------------------------------------------------------- the shape passes

  /** validate_no_non_stage_parents */
  method ValidateParents(children: Children, errors: ErrorList)
    modifies errors
    ensures old(errors.items) <= errors.items
    ensures errors.items == old(errors.items) <==> forall p :: p in children ==> IsStage(p)
  {
    hide IsStage, IsGate;
    var todo := children.Keys;
    while todo != {}
      invariant todo <= children.Keys && old(errors.items) <= errors.items
      invariant errors.items == old(errors.items) <==> forall p :: p in children.Keys - todo ==> IsStage(p)
    {
      var p :| p in todo;
      todo := todo - {p};
      if IsStage(p) {
        continue;
      }
      if IsGate(p) {
        errors.Append(GateOwnsChildren, p);
        continue;
      }
      errors.Append(NonStageParent, p);
    }
  }

  /** A stage task is present, has no parent, owns a child, and its non-gate children have its prefixes. */
  ghost predicate StageOk(live: Tasks, stage: string) {
    && stage in live && live[stage].Task? && live[stage].parent == ""
    && (exists k :: k in live && live[k].Task? && live[k].parent == stage)
    && (forall k :: k in live && live[k].Task? && live[k].parent == stage && !IsGate(k) ==> AllowedPrefix(stage, k))
  }

  method ValidateStage(live: Tasks, children: Children, stage: string, errors: ErrorList)
    requires LiveTasks(live) && ChildrenOf(live, children) && stage != ""
    modifies errors
    ensures old(errors.items) <= errors.items
    ensures errors.items == old(errors.items) <==> StageOk(live, stage)
  {
    hide AllowedPrefix, IsGate, ChildrenOf;
    if stage !in live {
      errors.Append(StageMissing, stage);
      return;
    }
    StageChildren(live, children, stage);
    if live[stage].parent != "" {
      errors.Append(StageHasParent, stage);
    }
    var stageChildren := if stage in children then children[stage] else [];
    if stageChildren == [] {
      errors.Append(StageWithoutChildren, stage);
      return;
    }
    assert stageChildren[0] in stageChildren;
    CheckPrefixes(live, stage, stageChildren, errors);
  }

  /** The children recorded for a stage are exactly the live tasks that name it. */
  lemma StageChildren(live: Tasks, children: Children, stage: string)
    requires LiveTasks(live) && ChildrenOf(live, children) && stage in live && stage != ""
    ensures stage in children ==> children[stage] != []
    ensures forall k :: (stage in children && k in children[stage]) <==> k in live && live[k].Task? && live[k].parent == stage
  {
  }

  method CheckPrefixes(live: Tasks, stage: string, stageChildren: seq<string>, errors: ErrorList)
    requires forall k :: k in stageChildren ==> k in live && live[k].Task? && live[k].parent == stage
    modifies errors
    ensures old(errors.items) <= errors.items
    ensures errors.items == old(errors.items) <==>
              forall k :: k in stageChildren && !IsGate(k) ==> AllowedPrefix(stage, k)
  {
    hide AllowedPrefix, IsGate;
    ghost var before := errors.items;
    for i := 0 to |stageChildren|
      invariant before <= errors.items
      invariant errors.items == before <==>
                  forall k :: k in stageChildren[..i] ==> IsGate(k) || AllowedPrefix(stage, k)
    {
      assert stageChildren[..i + 1] == stageChildren[..i] + [stageChildren[i]];
      var child := stageChildren[i];
      if IsGate(child) {
        continue;
      }
      assert live[child].parent == stage;  // so the script's own test of it never fires
      if !AllowedPrefix(stage, child) {
        errors.Append(WrongPrefix, child);
      }
    }
    assert stageChildren[..|stageChildren|] == stageChildren;
  }

  ghost predicate UnderStage(live: Tasks, k: string)
    requires k in live && live[k].Task?
  {
    IsStage(k) || IsGate(k) || IsStage(live[k].parent)
  }

  /** validate_root_stage_hierarchy */
  method ValidateHierarchy(live: Tasks, children: Children, errors: ErrorList)
    requires LiveTasks(live) && ChildrenOf(live, children)
    modifies errors
    ensures old(errors.items) <= errors.items
    ensures errors.items == old(errors.items) <==>
              StageOk(live, SPEC) && StageOk(live, REFINED) && StageOk(live, PLANNED)
              && forall k :: k in live && live[k].Task? ==> UnderStage(live, k)
  {
    hide StageOk, IsGate, IsStage, ChildrenOf;
    ValidateStage(live, children, SPEC, errors);
    ValidateStage(live, children, REFINED, errors);
    ValidateStage(live, children, PLANNED, errors);
    ghost var before := errors.items;
    var todo := live.Keys;
    while todo != {}
      invariant todo <= live.Keys && before <= errors.items
      invariant errors.items == before <==>
                  forall k :: k in live.Keys - todo && live[k].Task? ==> UnderStage(live, k)
    {
      var k :| k in todo;
      todo := todo - {k};
      if IsStage(k) || IsGate(k) {
        continue;
      }
      if !IsStage(live[k].parent) {
        errors.Append(NotUnderStage, k);
      }
    }
  }

  /** What a leaf owes: two criteria, one to three references, a specific summary. */
  ghost predicate LeafOk(t: RawTask)
    requires t.Task?
  {
    |t.criteria| >= 2 && 1 <= |t.references| <= 3 && !Vague(t.summary)
  }

  predicate IsLeaf(children: Children, k: string) {
    !IsStage(k) && k !in children && !IsGate(k)
  }

  /** validate_leaf_acceptance */
  method ValidateLeaves(live: Tasks, children: Children, errors: ErrorList)
    requires LiveTasks(live)
    modifies errors
    ensures old(errors.items) <= errors.items
    ensures errors.items == old(errors.items) <==>
              && (forall k :: k in live && live[k].Task? && IsLeaf(children, k) ==> LeafOk(live[k]))
              && exists k :: k in live && IsLeaf(children, k)
  {
    hide IsStage, IsGate, Vague;
    var foundLeaf := false;
    var todo := live.Keys;
    while todo != {}
      invariant todo <= live.Keys && old(errors.items) <= errors.items
      invariant errors.items == old(errors.items) <==>
                  forall k :: k in live.Keys - todo && live[k].Task? && IsLeaf(children, k) ==> LeafOk(live[k])
      invariant foundLeaf <==> exists k :: k in live.Keys - todo && IsLeaf(children, k)
    {
      var k :| k in todo;
      ghost var done := live.Keys - todo;
      todo := todo - {k};
      assert live.Keys - todo == done + {k};
      if IsStage(k) {
        continue;
      }
      if k in children {
        continue;
      }
      if IsGate(k) {
        continue;
      }
      assert IsLeaf(children, k);
      foundLeaf := true;
      var task := live[k];
      if |task.criteria| < 2 {
        errors.Append(TooFewCriteria, k);
      }
      if task.references == [] {
        errors.Append(NoReferences, k);
      }
      if |task.references| > 3 {
        errors.Append(TooManyReferences, k);
      }
      if Vague(task.summary) {
        errors.Append(VagueSummary, k);
      }
    }
    assert live.Keys - todo == live.Keys;
    if !foundLeaf {
      errors.Append(NoLeaf, "");
    }
  }

  // ---------------------------------------------------------------- the root plan

  function StageText(plan: Plan, stage: string): string {
    if plan.stages.Some? && StageField(stage) in plan.stages.value then plan.stages.value[StageField(stage)] else ""
  }

  ghost predicate HeaderOk(plan: Plan) {
    && plan.parent == "" && plan.title != "" && plan.objective != ""
    && plan.inScope != [] && plan.outOfScope != [] && plan.constraints != [] && plan.references != []
    && plan.stages.Some?
    && StageText(plan, SPEC) != "" && StageText(plan, REFINED) != "" && StageText(plan, PLANNED) != ""
  }

  method Require(holds: bool, code: Code, subject: string, errors: ErrorList)
    modifies errors
    ensures old(errors.items) <= errors.items && (errors.items == old(errors.items) <==> holds)
  {
    if !holds {
      errors.Append(code, subject);
    }
  }

  method ValidateHeader(plan: Plan, errors: ErrorList)
    modifies errors
    ensures old(errors.items) <= errors.items && (errors.items == old(errors.items) <==> HeaderOk(plan))
  {
    hide StageText;
    Require(plan.parent == "", ParentSet, "parent_plan_key", errors);
    Require(plan.title != "", MissingField, "title", errors);
    Require(plan.objective != "", MissingField, "objective", errors);
    Require(plan.inScope != [], EmptyList, "in_scope", errors);
    Require(plan.outOfScope != [], EmptyList, "out_of_scope", errors);
    Require(plan.constraints != [], EmptyList, "constraints", errors);
    Require(plan.references != [], EmptyList, "references", errors);
    Require(plan.stages.Some?, StagesMissing, "stages", errors);
    Require(StageText(plan, SPEC) != "", StageUnset, SPEC, errors);
    Require(StageText(plan, REFINED) != "", StageUnset, REFINED, errors);
    Require(StageText(plan, PLANNED) != "", StageUnset, PLANNED, errors);
  }

  /** A stage task whose status is set agrees with the plan's status for the stage, when that is set. */
  ghost predicate StageStatusOk(plan: Plan, live: Tasks, stage: string) {
    stage in live && live[stage].Task? && StageText(plan, stage) != "" && live[stage].status != "" ==>
      StageText(plan, stage) == live[stage].status
  }

  /** The stage task and the plan's field for it, both set, have one status. */
  ghost predicate Agrees(plan: Plan, live: Tasks, stage: string, field: string) {
    && stage in live && live[stage].Task? && live[stage].status != ""
    && plan.stages.Some? && field in plan.stages.value && plan.stages.value[field] != "" ==>
      live[stage].status == plan.stages.value[field]
  }

  /** Which field belongs to which stage. */
  lemma StageStatusExactly(plan: Plan, live: Tasks)
    ensures StageStatusOk(plan, live, SPEC) <==> Agrees(plan, live, "stage:spec-outline", "spec_outline")
    ensures StageStatusOk(plan, live, REFINED) <==> Agrees(plan, live, "stage:refined-spec", "refined_spec")
    ensures StageStatusOk(plan, live, PLANNED) <==> Agrees(plan, live, "stage:implementation-plan", "implementation_plan")
  {
    assert SPEC[6] != REFINED[6] && SPEC[6] != PLANNED[6] && REFINED[6] != PLANNED[6];
  }

  method ValidateStageStatus(plan: Plan, live: Tasks, stage: string, errors: ErrorList)
    requires LiveTasks(live)
    modifies errors
    ensures old(errors.items) <= errors.items && (errors.items == old(errors.items) <==> StageStatusOk(plan, live, stage))
  {
    hide StageText;
    if stage in live {
      var planned, status := StageText(plan, stage), live[stage].status;
      if planned != "" && status != "" && planned != status {
        errors.Append(StageStatusDiffers, stage);
      }
    }
  }

  /** What the passes over a non-empty live index accept. */
  ghost predicate PassesOk(plan: Plan, live: Tasks, children: Children) {
    && "verify:tests" in live
    && StageStatusOk(plan, live, SPEC) && StageStatusOk(plan, live, REFINED) && StageStatusOk(plan, live, PLANNED)
    && HierarchyOk(live, children)
  }

  ghost predicate HierarchyOk(live: Tasks, children: Children) {
    && (forall p :: p in children ==> IsStage(p))
    && StageOk(live, SPEC) && StageOk(live, REFINED) && StageOk(live, PLANNED)
    && (forall k :: k in live && live[k].Task? ==> UnderStage(live, k))
    && (forall k :: k in live && live[k].Task? && IsLeaf(children, k) ==> LeafOk(live[k]))
    && (exists k :: k in live && IsLeaf(children, k))
  }

  method ValidatePasses(plan: Plan, live: Tasks, children: Children, errors: ErrorList)
    requires LiveTasks(live) && ChildrenOf(live, children)
    modifies errors
    ensures old(errors.items) <= errors.items && (errors.items == old(errors.items) <==> PassesOk(plan, live, children))
  {
    hide StageStatusOk, StageOk, LeafOk, IsLeaf, IsStage, UnderStage, ChildrenOf, LiveTasks;
    Require("verify:tests" in live, VerifyMissing, "verify:tests", errors);
    ValidateStageStatus(plan, live, SPEC, errors);
    ValidateStageStatus(plan, live, REFINED, errors);
    ValidateStageStatus(plan, live, PLANNED, errors);
    ValidateParents(children, errors);
    ValidateHierarchy(live, children, errors);
    ValidateLeaves(live, children, errors);
  }

  /**
   * The shape a staged root plan must have: a forest of depth at most one whose inner nodes are
   * the three parentless stages, and whose other tasks are gates or sit, with an allowed prefix
   * and everything a leaf owes, under one of them.
   */
  ghost predicate StagedForest(live: Tasks) {
    && IsRoot(live, SPEC) && IsRoot(live, REFINED) && IsRoot(live, PLANNED)
    && (forall k :: k in live && live[k].Task? && live[k].parent != "" ==> IsStage(live[k].parent))
    && (forall k :: k in live && live[k].Task? && !IsStage(k) && !IsGate(k) ==> ProperLeaf(live[k]))
    && (exists k :: k in live && !IsStage(k) && !IsGate(k))
  }

  /** Present, parentless, and not childless. */
  ghost predicate IsRoot(live: Tasks, stage: string) {
    stage in live && live[stage].Task? && live[stage].parent == ""
    && exists k :: k in live && live[k].Task? && live[k].parent == stage
  }

  ghost predicate ProperLeaf(t: RawTask)
    requires t.Task?
  {
    IsStage(t.parent) && AllowedPrefix(t.parent, t.key) && LeafOk(t)
  }

  /** A parentless stage with a child. */
  ghost predicate StagePresent(live: Tasks, stage: string) {
    && stage in live && live[stage].Task? && live[stage].parent == ""
    && exists k :: k in live && live[k].Task? && live[k].parent == stage
  }

  predicate StageKey(k: string) {
    k == "stage:spec-outline" || k == "stage:refined-spec" || k == "stage:implementation-plan"
  }

  predicate GateKey(k: string) {
    k == "verify:tests" || HasPrefix(k, "review:")
  }

  /** Under one stage, with its prefix and all that a leaf owes. */
  ghost predicate PlacedLeaf(k: string, t: RawTask)
    requires t.Task?
  {
    && ((t.parent == "stage:spec-outline" && HasPrefix(k, "spec:"))
        || (t.parent == "stage:refined-spec" && HasPrefix(k, "refine:"))
        || (t.parent == "stage:implementation-plan" && (HasPrefix(k, "impl:") || HasPrefix(k, "tdd:"))))
    && |t.criteria| >= 2 && 1 <= |t.references| <= 3 && !Vague(t.summary)
  }

  /** The shape in the names that plans use. */
  lemma StagedForestExactly(live: Tasks)
    requires LiveTasks(live)
    ensures StagedForest(live) <==>
              && StagePresent(live, "stage:spec-outline") && StagePresent(live, "stage:refined-spec")
              && StagePresent(live, "stage:implementation-plan")
              && (forall k :: k in live && live[k].Task? && live[k].parent != "" ==> StageKey(live[k].parent))
              && (forall k :: k in live && live[k].Task? && !StageKey(k) && !GateKey(k) ==> PlacedLeaf(k, live[k]))
              && (exists k :: k in live && !StageKey(k) && !GateKey(k))
  {
    hide Vague, HasPrefix, StagePresent, IsRoot;
    NamesExactly();
    forall k | k in live && live[k].Task?
      ensures ProperLeaf(live[k]) <==> PlacedLeaf(k, live[k])
    {
      LeafExactly(k, live[k]);
    }
    RootExactly(live, SPEC);
    RootExactly(live, REFINED);
    RootExactly(live, PLANNED);
  }

  lemma NamesExactly()
    ensures forall k :: (IsStage(k) <==> StageKey(k)) && (IsGate(k) <==> GateKey(k))
  {
    hide HasPrefix;
  }

  lemma RootExactly(live: Tasks, stage: string)
    ensures IsRoot(live, stage) <==> StagePresent(live, stage)
  {
  }

  lemma LeafExactly(k: string, t: RawTask)
    requires t.Task? && t.key == k
    ensures ProperLeaf(t) <==> PlacedLeaf(k, t)
  {
    hide Vague, HasPrefix;
    assert SPEC[6] == 's' && REFINED[6] == 'r' && PLANNED[6] == 'i';
  }

  /** The stages of the plan's header, by their fields. */
  lemma HeaderExactly(plan: Plan)
    ensures HeaderOk(plan) <==>
              && plan.parent == "" && plan.title != "" && plan.objective != ""
              && plan.inScope != [] && plan.outOfScope != [] && plan.constraints != [] && plan.references != []
              && plan.stages.Some?
              && FieldSet(plan.stages.value, "spec_outline") && FieldSet(plan.stages.value, "refined_spec")
              && FieldSet(plan.stages.value, "implementation_plan")
  {
    assert SPEC[6] == 's' && REFINED[6] == 'r' && PLANNED[6] == 'i';
  }

  predicate FieldSet(stages: map<string, string>, field: string) {
    field in stages && stages[field] != ""
  }

  /** The passes accept exactly the staged forests with a verify task and agreeing stage statuses. */
  lemma PassesDecideShape(plan: Plan, live: Tasks, children: Children)
    requires LiveTasks(live) && ChildrenOf(live, children)
    requires forall k :: k in live && live[k].Task? ==> LinksOk(live, k)
    ensures PassesOk(plan, live, children) <==>
            "verify:tests" in live
            && StageStatusOk(plan, live, SPEC) && StageStatusOk(plan, live, REFINED) && StageStatusOk(plan, live, PLANNED)
            && StagedForest(live)
  {
    hide StageStatusOk, StagedForest, HierarchyOk, LiveTasks, ChildrenOf, LinksOk;
    if HierarchyOk(live, children) {
      PassedIsForest(live, children);
    }
    if StagedForest(live) {
      ForestPasses(live, children);
    }
  }

  lemma PassedIsForest(live: Tasks, children: Children)
    requires LiveTasks(live) && ChildrenOf(live, children) && HierarchyOk(live, children)
    requires forall k :: k in live && live[k].Task? ==> LinksOk(live, k)
    ensures StagedForest(live)
  {
    hide StageStatusOk, IsGate, AllowedPrefix, LeafOk, IsStage;
    StageNames();
    hide ChildrenOf, UnderStage, ProperLeaf;
    forall k | k in live && live[k].Task? && live[k].parent != ""
      ensures IsStage(live[k].parent)
    {
      ParentRecorded(live, children, k);
    }
    forall k | k in live && live[k].Task? && !IsStage(k) && !IsGate(k)
      ensures ProperLeaf(live[k])
    {
      LeafOfStage(live, children, k);
    }
  }

  lemma ParentRecorded(live: Tasks, children: Children, k: string)
    requires ChildrenOf(live, children) && k in live && live[k].Task? && live[k].parent != "" && LinksOk(live, k)
    ensures live[k].parent in children
  {
  }

  /** The other direction: what the hierarchy and leaf passes ask follows from the shape. */
  lemma ForestPasses(live: Tasks, children: Children)
    requires LiveTasks(live) && ChildrenOf(live, children) && StagedForest(live)
    ensures HierarchyOk(live, children)
  {
    hide IsGate, AllowedPrefix, LeafOk, IsStage, ChildrenOf, StageOk;
    StageNames();
    forall k | k in live && live[k].Task? && !IsStage(k) && !IsGate(k)
      ensures IsLeaf(children, k) && LeafOk(live[k]) && UnderStage(live, k)
    {
      assert ProperLeaf(live[k]);
      OnlyStagesOwn(live, children, k);
    }
    forall p | p in children
      ensures IsStage(p)
    {
      OnlyStagesOwn(live, children, p);
    }
    forall stage | stage == SPEC || stage == REFINED || stage == PLANNED
      ensures StageOk(live, stage)
    {
      StageOfForest(live, stage);
    }
  }

  lemma OnlyStagesOwn(live: Tasks, children: Children, k: string)
    requires ChildrenOf(live, children) && StagedForest(live)
    ensures k in children ==> IsStage(k)
  {
    hide IsStage, IsRoot, ProperLeaf, IsGate;
  }

  lemma StagesAreRoots(live: Tasks, k: string)
    requires StagedForest(live) && k in live && live[k].Task?
    ensures IsStage(k) ==> live[k].parent == ""
  {
    hide ProperLeaf, IsGate;
    StageNames();
  }

  lemma StageNames()
    ensures IsStage(SPEC) && IsStage(REFINED) && IsStage(PLANNED) && !IsStage("")
    ensures forall p :: IsStage(p) <==> p == SPEC || p == REFINED || p == PLANNED
  {
  }

  lemma StageOfForest(live: Tasks, stage: string)
    requires LiveTasks(live) && StagedForest(live) && (stage == SPEC || stage == REFINED || stage == PLANNED)
    ensures StageOk(live, stage)
  {
    hide IsGate, AllowedPrefix, LeafOk, IsStage;
    StageNames();
    forall k | k in live && live[k].Task? && live[k].parent == stage && !IsGate(k)
      ensures AllowedPrefix(stage, k)
    {
      StagesAreRoots(live, k);
      assert ProperLeaf(live[k]);
    }
  }

  lemma LeafOfStage(live: Tasks, children: Children, k: string)
    requires LiveTasks(live) && ChildrenOf(live, children)
    requires k in live && !IsStage(k) && !IsGate(k) && UnderStage(live, k)
    requires forall p :: p in children ==> IsStage(p)
    requires StageOk(live, SPEC) && StageOk(live, REFINED) && StageOk(live, PLANNED)
    requires forall c :: c in live && live[c].Task? && IsLeaf(children, c) ==> LeafOk(live[c])
    ensures ProperLeaf(live[k])
  {
    hide IsGate, AllowedPrefix, LeafOk, IsStage, ChildrenOf;
    StageNames();
    assert IsLeaf(children, k);
    assert StageOk(live, live[k].parent);
  }

  /** No live task is deeper than one step below a root. */
  lemma ForestIsShallow(live: Tasks, k: string)
    requires LiveTasks(live) && StagedForest(live) && k in live
    ensures live[k].parent == "" || (live[k].parent in live && live[live[k].parent].Task? && live[live[k].parent].parent == "")
  {
    hide LeafOk, AllowedPrefix, IsGate;
    if live[k].parent != "" {
      assert IsStage(live[k].parent);
      assert IsRoot(live, live[k].parent);
    }
  }

  /** A root plan as the validator accepts it. */
  ghost predicate RootPlanOk(plan: Plan) {
    var live := Live(plan.tasks);
    && HeaderOk(plan)
    && plan.tasks != [] && RowsOk(plan.tasks) && (forall k :: k in live && live[k].Task? ==> LinksOk(live, k))
    && (live == map[] ||
        ("verify:tests" in live
         && StageStatusOk(plan, live, SPEC) && StageStatusOk(plan, live, REFINED) && StageStatusOk(plan, live, PLANNED)
         && StagedForest(live)))
  }

  /** validate_root_staged_plan: no error exactly on the plans of the required shape. */
  method ValidateRoot(plan: Plan, errors: ErrorList)
    modifies errors
    ensures old(errors.items) <= errors.items
    ensures errors.items == old(errors.items) <==> RootPlanOk(plan)
  {
    hide HeaderOk, RowsOk, LinksOk, StageStatusOk, StagedForest, PassesOk, LiveTasks, ChildrenOf, Live;
    ValidateHeader(plan, errors);
    var live, children := IndexTasks(plan.tasks, errors);
    if live == map[] {
      return;
    }
    ghost var links := forall k :: k in live && live[k].Task? ==> LinksOk(live, k);
    ValidatePasses(plan, live, children, errors);
    if links {
      PassesDecideShape(plan, live, children);
    }
  }

  /** The exception in that shape: with every task superseded the plan passes with no live task at all. */
  lemma {:induction false} AllSupersededPasses(plan: Plan)
    requires HeaderOk(plan) && plan.tasks != []
    requires forall i :: 0 <= i < |plan.tasks| ==>
               plan.tasks[i].Task? && plan.tasks[i].key != "" && plan.tasks[i].status == "superseded"
    ensures RootPlanOk(plan)
  {
    forall i | 0 <= i <= |plan.tasks|
      ensures Live(plan.tasks[..i]) == map[]
    {
      NothingLive(plan.tasks[..i]);
    }
    assert plan.tasks[..|plan.tasks|] == plan.tasks;
  }

  lemma {:induction false} NothingLive(raw: seq<RawTask>)
    requires forall i :: 0 <= i < |raw| ==> raw[i].Task? && raw[i].status == "superseded"
    ensures Live(raw) == map[]
  {
    if raw != [] {
      NothingLive(raw[..|raw| - 1]);
    }
  }
}
