/**
 Replacing the rule pointers of ruleset files (internal/adapters/sqlite/repository_rules.go and its
 Postgres twin, which run the same statements; internal/service/backend/ruleset.go, lines 98-137).
 */
module RuleSync {
  import opened Wrappers
  import opened Strings
  import opened PointerSync
  import RuleIds
  import Paths

  /** A rule as handed to the store; `labels` stands for its normalized enforcement and tags. */
  datatype RulePointer = RulePointer(key: string, ruleId: string, summary: string, content: string, labels: string)

  // ---------------------------------------------------------------- the input

  /** ruleIDFromPointerKey of the stores: no fallback to the whole key. */
  function RuleIdOfKey(pointerKey: string): string {
    var key := Trim(pointerKey);
    var separator := RuleIds.LastIndex(key, '#');
    if separator < 0 || separator >= |key| - 1 then "" else Trim(key[separator + 1..])
  }

  /** The id in a key is what follows the last '#', spaces around it aside; without one there is none. */
  lemma IdAfterHash(pointerKey: string, before: string, id: string)
    ensures '#' !in Trim(pointerKey) ==> RuleIdOfKey(pointerKey) == ""
    ensures Trim(pointerKey) == before + "#" + id && '#' !in id ==> RuleIdOfKey(pointerKey) == Trim(id)
  {
    hide Trim;
    var key := Trim(pointerKey);
    if key == before + "#" + id && '#' !in id {
      assert key[|before|] == '#' && key[|before| + 1..] == id;
      assert RuleIds.LastIndex(key, '#') == |before|;
      RuleIds.TrimNothing();
    }
  }

  /** normalizeRulePointerSyncInput: the text to store for each pointer key; a later rule replaces an earlier. */
  function NormalizeRules(project: string, source: string, raws: seq<RulePointer>): Result<map<string, Text>, string> {
    if raws == [] then Ok(map[])
    else
      var rest := NormalizeRules(project, source, raws[..|raws| - 1]);
      var raw := raws[|raws| - 1];
      var ruleId := if Trim(raw.ruleId) == "" then RuleIdOfKey(raw.key) else Trim(raw.ruleId);
      var key := if Trim(raw.key) == "" then project + ":" + source + "#" + ruleId else Trim(raw.key);
      if rest.Err? then rest
      else if ruleId == "" then Err("rule_id is required")
      else if Trim(raw.summary) == "" then Err("summary is required for pointer")
      else
        var content := if Trim(raw.content) == "" then Trim(raw.summary) else Trim(raw.content);
        Ok(rest.value[key := Text(Trim(raw.summary), content, raw.labels)])
  }

  /** What the store makes of a rule: the key it goes under and the text kept for it. */
  function KeyOf(project: string, source: string, raw: RulePointer): string {
    if Trim(raw.key) != "" then Trim(raw.key)
    else project + ":" + source + "#" + (if Trim(raw.ruleId) == "" then RuleIdOfKey(raw.key) else Trim(raw.ruleId))
  }

  /** The rules are refused when one has no id, given or in its key, or no summary; else the last of each key is kept. */
  lemma {:induction false} NormalizeRulesExactly(project: string, source: string, raws: seq<RulePointer>)
    ensures NormalizeRules(project, source, raws).Err? <==>
              exists i :: 0 <= i < |raws| && ((Trim(raws[i].ruleId) == "" && RuleIdOfKey(raws[i].key) == "") || Trim(raws[i].summary) == "")
    ensures NormalizeRules(project, source, raws).Ok? ==>
              forall key, text :: (key in NormalizeRules(project, source, raws).value && NormalizeRules(project, source, raws).value[key] == text)
                                  <==> KeptAs(project, source, raws, key, text)
  {
    hide Trim, RuleIdOfKey;
    if raws != [] {
      var n := |raws| - 1;
      var front := raws[..n];
      NormalizeRulesExactly(project, source, front);
      if i :| 0 <= i < |raws| && ((Trim(raws[i].ruleId) == "" && RuleIdOfKey(raws[i].key) == "") || Trim(raws[i].summary) == "") {
        assert i < n ==> front[i] == raws[i];
      }
      if i :| 0 <= i < n && ((Trim(front[i].ruleId) == "" && RuleIdOfKey(front[i].key) == "") || Trim(front[i].summary) == "") {
        assert raws[i] == front[i];
      }
      if NormalizeRules(project, source, raws).Ok? {
        forall key, text
          ensures KeptAs(project, source, raws, key, text) <==>
                    if KeyOf(project, source, raws[n]) == key
                    then text.title == Trim(raws[n].summary) && text.tags == raws[n].labels
                         && text.description == (if Trim(raws[n].content) == "" then Trim(raws[n].summary) else Trim(raws[n].content))
                    else KeptAs(project, source, front, key, text)
        {
          KeptNext(project, source, raws, key, text);
        }
        assert NormalizeRules(project, source, front).Ok?;
      }
    }
  }

  /** The last rule of the key has this text: its summary, its content or else its summary again, its tags. */
  ghost predicate KeptAs(project: string, source: string, raws: seq<RulePointer>, key: string, text: Text) {
    exists i :: 0 <= i < |raws| && KeyOf(project, source, raws[i]) == key
                && text.title == Trim(raws[i].summary) && text.tags == raws[i].labels
                && text.description == (if Trim(raws[i].content) == "" then Trim(raws[i].summary) else Trim(raws[i].content))
                && forall j :: i < j < |raws| ==> KeyOf(project, source, raws[j]) != key
  }

  lemma KeptNext(project: string, source: string, raws: seq<RulePointer>, key: string, text: Text)
    requires raws != []
    ensures var n := |raws| - 1;
            KeptAs(project, source, raws, key, text) <==>
              if KeyOf(project, source, raws[n]) == key
              then text.title == Trim(raws[n].summary) && text.tags == raws[n].labels
                   && text.description == (if Trim(raws[n].content) == "" then Trim(raws[n].summary) else Trim(raws[n].content))
              else KeptAs(project, source, raws[..n], key, text)
  {
    hide Trim, KeyOf;
    var n := |raws| - 1;
    var front := raws[..n];
    assert forall i :: 0 <= i < n ==> front[i] == raws[i];
    if KeptAs(project, source, raws, key, text) {
      var i :| 0 <= i < |raws| && KeyOf(project, source, raws[i]) == key
               && text.title == Trim(raws[i].summary) && text.tags == raws[i].labels
               && text.description == (if Trim(raws[i].content) == "" then Trim(raws[i].summary) else Trim(raws[i].content))
               && forall j :: i < j < |raws| ==> KeyOf(project, source, raws[j]) != key;
      if i < n {
        assert front[i] == raws[i];
      }
    }
    if KeptAs(project, source, front, key, text) && KeyOf(project, source, raws[n]) != key {
      var i :| 0 <= i < n && KeyOf(project, source, front[i]) == key
               && text.title == Trim(front[i].summary) && text.tags == front[i].labels
               && text.description == (if Trim(front[i].content) == "" then Trim(front[i].summary) else Trim(front[i].content))
               && forall j :: i < j < n ==> KeyOf(project, source, front[j]) != key;
      assert raws[i] == front[i];
    }
  }

  /** The store reads the id back from a key that the service prints, and would print the same key itself. */
  lemma KeysAgree(project: string, source: string, id: string)
    requires RuleIds.IdText(id)
    ensures RuleIdOfKey(RuleIds.PointerKey(project, source, id)) == id
    ensures KeyOf(Trim(project), Trim(source), RulePointer("", id, "", "", "")) == RuleIds.PointerKey(project, source, id)
  {
    RuleIds.IdTextTrimmed(id);
    RuleIds.RuleIdRecovered(project, source, id);
    RuleIds.KeyTrimmed(project, source, id);
    TrimShape("");
    var prefix := Trim(project) + ":" + Trim(source);
    var key := RuleIds.PointerKey(project, source, id);
    assert key == prefix + "#" + id;
    assert key[|prefix|] == '#';
    assert forall j :: |prefix| < j < |key| ==> key[j] == id[j - |prefix| - 1];
    assert key[|prefix| + 1..] == id;
  }

  // ---------------------------------------------------------------- the statements

  function RuleRow(source: string, text: Text, now: int): Pointer {
    Pointer(source, true, text, None, false, None, now)
  }

  /** INSERT ... ON CONFLICT (project_id, pointer_key) DO UPDATE for every rule. */
  function Upserted(t: Pointers, project: string, source: string, rules: map<string, Text>, now: int): Pointers {
    map k | k in t.Keys + RowKeys(project, rules.Keys) ::
      if k.project == project && k.key in rules then RuleRow(source, rules[k.key], now) else t[k]
  }

  /** DELETE ... WHERE path = ? AND is_rule = 1 AND pointer_key NOT IN (...) */
  function Dropped(t: Pointers, project: string, source: string, keep: set<string>): set<RowKey> {
    set k | k in t && k.project == project && t[k].path == source && t[k].isRule && k.key !in keep
  }

  function Replaced(t: Pointers, project: string, source: string, rules: map<string, Text>, now: int): Pointers {
    var u := Upserted(t, project, source, rules, now);
    u - Dropped(u, project, source, rules.Keys)
  }

  lemma UpsertStep(t: Pointers, project: string, source: string, rules: map<string, Text>, key: string, text: Text, now: int)
    ensures Upserted(t, project, source, rules, now)[RowKey(project, key) := RuleRow(source, text, now)]
            == Upserted(t, project, source, rules[key := text], now)
  {
    hide RowKeys;
    var a := Upserted(t, project, source, rules, now)[RowKey(project, key) := RuleRow(source, text, now)];
    var b := Upserted(t, project, source, rules[key := text], now);
    assert rules[key := text].Keys == rules.Keys + {key};
    assert RowKeys(project, rules.Keys + {key}) == RowKeys(project, rules.Keys) + {RowKey(project, key)};
    assert a.Keys == b.Keys;
  }

  datatype RuleCounts = RuleCounts(upserted: nat, deleted: nat)

  class RuleRepository {
    var pointers: Pointers

    /** SyncRulePointers: upserts the supplied rules one by one, then deletes the source's other rules. */
    method SyncRulePointers(project: string, sourcePath: string, raws: seq<RulePointer>, now: int)
      returns (result: Result<RuleCounts, string>)
      modifies this
      ensures var source := Paths.NormalizeRepo(sourcePath);
              var rules := NormalizeRules(Trim(project), source, raws);
              if Trim(project) == "" || source == "" || rules.Err? then result.Err? && pointers == old(pointers)
              else && pointers == Replaced(old(pointers), Trim(project), source, rules.value, now)
                   && result == Ok(RuleCounts(|rules.value|,
                        |Dropped(Upserted(old(pointers), Trim(project), source, rules.value, now), Trim(project), source, rules.value.Keys)|))
    {
      if Trim(project) == "" {
        return Err("project_id is required");
      }
      var source := Paths.NormalizeRepo(sourcePath);
      if source == "" {
        return Err("source_path is required");
      }
      var rules := NormalizeRules(Trim(project), source, raws);
      if rules.Err? {
        return Err(rules.error);
      }
      var upserted := UpsertRules(Trim(project), source, rules.value, now);
      var gone := Dropped(pointers, Trim(project), source, rules.value.Keys);
      pointers := pointers - gone;
      return Ok(RuleCounts(upserted, |gone|));
    }

    /** One upsert per rule, in key order. */
    method UpsertRules(project: string, source: string, rules: map<string, Text>, now: int) returns (upserted: nat)
      modifies this
      ensures pointers == Upserted(old(pointers), project, source, rules, now) && upserted == |rules|
    {
      hide Upserted, RuleRow;
      var keys := SortedKeys(rules.Keys);
      upserted := 0;
      UpsertNothing(pointers, project, source, now);
      for i := 0 to |keys|
        invariant pointers == Upserted(old(pointers), project, source, Part(rules, keys[..i]), now) && upserted == i
      {
        assert keys[..i + 1][..i] == keys[..i];
        assert keys[i] in Elements(keys);
        UpsertStep(old(pointers), project, source, Part(rules, keys[..i]), keys[i], rules[keys[i]], now);
        pointers := pointers[RowKey(project, keys[i]) := RuleRow(source, rules[keys[i]], now)];
        upserted := upserted + 1;
      }
      assert keys[..|keys|] == keys;
      PartOfAll(rules, keys);
    }
  }

  /** The rules with these keys. */
  function Part(rules: map<string, Text>, keys: seq<string>): map<string, Text> {
    if keys == [] then map[]
    else
      var key := keys[|keys| - 1];
      var rest := Part(rules, keys[..|keys| - 1]);
      if key in rules then rest[key := rules[key]] else rest
  }

  lemma {:induction false} PartOfAll(rules: map<string, Text>, keys: seq<string>)
    requires StrictlySorted(keys) && Elements(keys) == rules.Keys
    ensures Part(rules, keys) == rules && |rules| == |keys|
  {
    hide Less;
    PartMeaning(rules, keys);
    forall i, j | 0 <= i < j < |keys|
      ensures keys[i] != keys[j]
    {
      LessTotal(keys[i], keys[j]);
    }
    CountDistinct(keys);
  }

  lemma {:induction false} PartMeaning(rules: map<string, Text>, keys: seq<string>)
    requires Elements(keys) <= rules.Keys
    ensures Part(rules, keys).Keys == Elements(keys)
    ensures forall k :: k in Part(rules, keys) ==> Part(rules, keys)[k] == rules[k]
  {
    if keys != [] {
      var n := |keys| - 1;
      assert keys == keys[..n] + [keys[n]];
      ElementsAppend(keys[..n], keys[n]);
      PartMeaning(rules, keys[..n]);
    }
  }

  lemma {:induction false} CountDistinct(keys: seq<string>)
    requires forall i, j :: 0 <= i < j < |keys| ==> keys[i] != keys[j]
    ensures |Elements(keys)| == |keys|
  {
    if keys != [] {
      var n := |keys| - 1;
      CountDistinct(keys[..n]);
      assert keys == keys[..n] + [keys[n]];
      ElementsAppend(keys[..n], keys[n]);
    }
  }

  lemma UpsertNothing(t: Pointers, project: string, source: string, now: int)
    ensures Upserted(t, project, source, map[], now) == t
  {
    assert RowKeys(project, {}) == {};
  }

  // ---------------------------------------------------------------- syncing every source

  /** A source path with the text of the row to be stored for each of its pointer keys. */
  datatype Source = Source(path: string, rules: map<string, Text>)

  /** The table after the loop of syncCanonicalRulesets. */
  function SyncAll(t: Pointers, project: string, sources: seq<Source>, now: int): Pointers {
    if sources == [] then t
    else
      var last := sources[|sources| - 1];
      Replaced(SyncAll(t, project, sources[..|sources| - 1], now), project, last.path, last.rules, now)
  }

  /** Different files, and no pointer key belongs to two of them. */
  ghost predicate Compatible(sources: seq<Source>) {
    forall i, j :: 0 <= i < j < |sources| ==> sources[i].path != sources[j].path && sources[i].rules.Keys !! sources[j].rules.Keys
  }

  ghost predicate Supplies(sources: seq<Source>, i: nat, key: string) {
    i < |sources| && key in sources[i].rules
  }

  ghost predicate IsSourcePath(sources: seq<Source>, path: string) {
    exists i :: 0 <= i < |sources| && sources[i].path == path
  }

  /** Row k of the synced table, whatever the order of the sources. */
  ghost predicate ExactRow(t: Pointers, t': Pointers, project: string, sources: seq<Source>, now: int, k: RowKey) {
    if k.project == project && exists i: nat :: Supplies(sources, i, k.key) then
      forall i: nat :: Supplies(sources, i, k.key) ==>
        k in t' && t'[k] == Pointer(sources[i].path, true, sources[i].rules[k.key], None, false, None, now)
    else
      && (k in t' <==> k in t && !(k.project == project && t[k].isRule && IsSourcePath(sources, t[k].path)))
      && (k in t' ==> t'[k] == t[k])
  }

  /** Supplied rows are the parsed rules, other rules on a synced path are gone, all else is unchanged. */
  lemma {:induction false} SyncIsExact(t: Pointers, project: string, sources: seq<Source>, now: int, k: RowKey)
    requires Compatible(sources)
    ensures ExactRow(t, SyncAll(t, project, sources, now), project, sources, now, k)
  {
    if sources != [] {
      var n := |sources| - 1;
      var front, last := sources[..n], sources[n];
      assert Compatible(front);
      SyncIsExact(t, project, front, now, k);
      FrontSupplies(sources, k.key);
      var t1, t2 := SyncAll(t, project, front, now), SyncAll(t, project, sources, now);
      ReplacedRow(t1, project, last.path, last.rules, now, k);
      if k in t1 && k in t && t1[k] == t[k] {
        FrontPaths(sources, t[k].path);
      }
      if k in t {
        FrontPaths(sources, t[k].path);
      }
      if k.project == project {
        if i: nat :| Supplies(front, i, k.key) {
          assert sources[i] == front[i] && Supplies(sources, i, k.key);
          assert !Supplies(sources, n, k.key);
        }
      }
    }
  }

  lemma FrontSupplies(sources: seq<Source>, key: string)
    requires sources != []
    ensures forall i: nat :: Supplies(sources, i, key) <==>
              Supplies(sources[..|sources| - 1], i, key) || (i == |sources| - 1 && key in sources[i].rules)
  {
  }

  lemma FrontPaths(sources: seq<Source>, path: string)
    requires sources != []
    ensures IsSourcePath(sources, path) <==> IsSourcePath(sources[..|sources| - 1], path) || sources[|sources| - 1].path == path
  {
    var n := |sources| - 1;
    if i :| 0 <= i < |sources| && sources[i].path == path {
      if i < n {
        assert sources[..n][i].path == path;
      }
    }
    if i :| 0 <= i < n && sources[..n][i].path == path {
      assert sources[i].path == path;
    }
  }

  lemma ReplacedRow(t: Pointers, project: string, source: string, rules: map<string, Text>, now: int, k: RowKey)
    ensures var t' := Replaced(t, project, source, rules, now);
            if k.project == project && k.key in rules then k in t' && t'[k] == Pointer(source, true, rules[k.key], None, false, None, now)
            else && (k in t' <==> k in t && !(k.project == project && t[k].isRule && t[k].path == source))
                 && (k in t' ==> t'[k] == t[k])
  {
  }

  /** The rule rows on a source path are exactly that source's rules. */
  lemma {:induction false} RulesOnPath(t: Pointers, project: string, sources: seq<Source>, now: int, i: nat)
    requires Compatible(sources) && i < |sources|
    ensures var t' := SyncAll(t, project, sources, now);
            forall k: RowKey :: k.project == project ==>
              (k in t' && t'[k].isRule && t'[k].path == sources[i].path <==> k.key in sources[i].rules)
  {
    hide SyncAll;
    var t' := SyncAll(t, project, sources, now);
    forall k: RowKey | k.project == project
      ensures k in t' && t'[k].isRule && t'[k].path == sources[i].path <==> k.key in sources[i].rules
    {
      SyncIsExact(t, project, sources, now, k);
      if k.key in sources[i].rules {
        assert Supplies(sources, i, k.key);
      } else if j: nat :| Supplies(sources, j, k.key) {
        assert t'[k] == RuleRow(sources[j].path, sources[j].rules[k.key], now);
      } else {
        assert IsSourcePath(sources, sources[i].path);
      }
    }
  }

  /** Every order of the same sources leaves the same table. */
  lemma SyncOrderIrrelevant(t: Pointers, project: string, a: seq<Source>, b: seq<Source>, now: int)
    requires Compatible(a) && Compatible(b)
    requires forall s :: s in a <==> s in b
    ensures SyncAll(t, project, a, now) == SyncAll(t, project, b, now)
  {
    hide SyncAll;
    var ta, tb := SyncAll(t, project, a, now), SyncAll(t, project, b, now);
    forall k
      ensures k in ta <==> k in tb
      ensures k in ta ==> ta[k] == tb[k]
    {
      SyncIsExact(t, project, a, now, k);
      SyncIsExact(t, project, b, now, k);
      SameSupply(a, b, k.key);
      SameSupply(b, a, k.key);
      if k in t {
        SamePaths(a, b, t[k].path);
        SamePaths(b, a, t[k].path);
      }
    }
    assert ta == tb;
  }

  lemma SameSupply(a: seq<Source>, b: seq<Source>, key: string)
    requires forall s :: s in a ==> s in b
    ensures forall i: nat :: Supplies(a, i, key) ==> exists j: nat :: Supplies(b, j, key) && b[j] == a[i]
  {
    forall i: nat | Supplies(a, i, key)
      ensures exists j: nat :: Supplies(b, j, key) && b[j] == a[i]
    {
      assert a[i] in a;
      var j :| 0 <= j < |b| && b[j] == a[i];
      assert Supplies(b, j, key);
    }
  }

  lemma SamePaths(a: seq<Source>, b: seq<Source>, path: string)
    requires forall s :: s in a ==> s in b
    ensures IsSourcePath(a, path) ==> IsSourcePath(b, path)
  {
    if i :| 0 <= i < |a| && a[i].path == path {
      assert a[i] in a;
      var j :| 0 <= j < |b| && b[j] == a[i];
      assert b[j].path == path;
    }
  }

  // ---------------------------------------------------------------- from the files to the table

  /** What is found at the path of a ruleset file; a file that cannot be decoded has no rules to read. */
  datatype Content = Missing | Undecodable | Decoded(raws: seq<RuleIds.RawRule>)

  datatype RulesetFile = RulesetFile(path: string, content: Content)

  /** toCoreRulePointers */
  function ToPointers(rules: seq<RuleIds.Rule>): seq<RulePointer> {
    seq(|rules|, i requires 0 <= i < |rules| =>
      RulePointer(rules[i].key, rules[i].id, rules[i].summary, rules[i].content, rules[i].labels))
  }

  /** The stored text for the key of each rule. */
  function RuleMap(rules: seq<RuleIds.Rule>): map<string, Text> {
    if rules == [] then map[]
    else
      var last := rules[|rules| - 1];
      RuleMap(rules[..|rules| - 1])[last.key := Text(last.summary, last.content, last.labels)]
  }

  ghost predicate Storable(project: string, path: string, rule: RuleIds.Rule) {
    && RuleIds.WellKeyed(project, path, rule)
    && rule.summary != "" && Trim(rule.summary) == rule.summary && rule.content != "" && Trim(rule.content) == rule.content
  }

  /** The store's own normalization takes parsed rules as they are, under their own keys. */
  lemma {:induction false} ParsedRulesAccepted(project: string, path: string, source: string, rules: seq<RuleIds.Rule>)
    requires forall rule :: rule in rules ==> Storable(project, path, rule)
    ensures NormalizeRules(Trim(project), source, ToPointers(rules)) == Ok(RuleMap(rules))
  {
    hide RuleIds.WellKeyed, Trim;
    if rules != [] {
      var n := |rules| - 1;
      assert rules[n] in rules && forall rule :: rule in rules[..n] ==> rule in rules;
      ParsedRulesAccepted(project, path, source, rules[..n]);
      assert ToPointers(rules)[..n] == ToPointers(rules[..n]);
      KeyAndIdTrimmed(project, path, rules[n]);
    }
  }

  lemma KeyAndIdTrimmed(project: string, path: string, rule: RuleIds.Rule)
    requires RuleIds.WellKeyed(project, path, rule)
    ensures rule.key != "" && Trim(rule.key) == rule.key && rule.id != "" && Trim(rule.id) == rule.id
  {
    RuleIds.IdTextTrimmed(rule.id);
    RuleIds.KeyTrimmed(project, path, rule.id);
  }

  /** With distinct keys the map depends on the rules alone, not on their order. */
  lemma {:induction false} RuleMapMeaning(rules: seq<RuleIds.Rule>)
    requires DistinctRuleKeys(rules)
    ensures forall key :: key in RuleMap(rules) <==> exists rule :: rule in rules && rule.key == key
    ensures forall rule :: rule in rules ==>
              rule.key in RuleMap(rules) && RuleMap(rules)[rule.key] == Text(rule.summary, rule.content, rule.labels)
  {
    if rules != [] {
      var n := |rules| - 1;
      RuleMapMeaning(rules[..n]);
      assert rules == rules[..n] + [rules[n]];
      assert forall rule :: rule in rules <==> rule in rules[..n] || rule == rules[n];
      forall rule | rule in rules[..n]
        ensures rule.key != rules[n].key
      {
        var i :| 0 <= i < n && rules[i] == rule;
      }
    }
  }

  ghost predicate DistinctRuleKeys(rules: seq<RuleIds.Rule>) {
    forall i, j :: 0 <= i < j < |rules| ==> rules[i].key != rules[j].key
  }

  lemma WellKeyedDistinct(project: string, path: string, rules: seq<RuleIds.Rule>)
    requires RuleIds.AllWellKeyed(project, path, rules) && RuleIds.DistinctIds(rules)
    ensures DistinctRuleKeys(rules)
  {
    hide RuleIds.WellKeyed;
    forall i, j | 0 <= i < j < |rules|
      ensures rules[i].key != rules[j].key
    {
      if rules[i].key == rules[j].key {
        RuleIds.KeysTellIds(project, path, rules[i], rules[j]);
      }
    }
  }

  lemma SameRuleMap(a: seq<RuleIds.Rule>, b: seq<RuleIds.Rule>)
    requires DistinctRuleKeys(a) && DistinctRuleKeys(b) && forall rule :: rule in a <==> rule in b
    ensures RuleMap(a) == RuleMap(b)
  {
    hide RuleMap;
    RuleMapMeaning(a);
    RuleMapMeaning(b);
    forall key
      ensures key in RuleMap(a) <==> key in RuleMap(b)
      ensures key in RuleMap(a) ==> RuleMap(a)[key] == RuleMap(b)[key]
    {
      if key in RuleMap(a) {
        var rule :| rule in a && rule.key == key;
        assert rule in b;
      }
    }
  }

  /** A missing file has no rules, a decoded one those its parser accepts. */
  ghost predicate FileParses(file: RulesetFile) {
    file.content.Missing? || (file.content.Decoded? && RuleIds.Parses(file.content.raws))
  }

  /** The derived ids have the characters of an id. */
  ghost predicate IdsDerived(file: RulesetFile) {
    file.content.Decoded? ==> forall i :: 0 <= i < |file.content.raws| ==> RuleIds.IdText(file.content.raws[i].derived)
  }

  ghost function SourceFor(project: string, file: RulesetFile): Source {
    Source(Paths.NormalizeRepo(file.path),
           if file.content.Decoded? then RuleMap(RuleIds.RulesOf(project, file.path, file.content.raws)) else map[])
  }

  ghost function SourcesFor(project: string, files: seq<RulesetFile>): (sources: seq<Source>)
    ensures |sources| == |files|
  {
    seq(|files|, i requires 0 <= i < |files| => SourceFor(project, files[i]))
  }

  /** A file that can be parsed and stored. */
  ghost predicate Good(file: RulesetFile) {
    FileParses(file) && Paths.NormalizeRepo(file.path) != ""
  }

  /** How many files come before the first that cannot be. */
  ghost function GoodPrefix(files: seq<RulesetFile>): (n: nat)
    ensures n <= |files|
    ensures forall i :: 0 <= i < n ==> Good(files[i])
    ensures n < |files| ==> !Good(files[n])
  {
    if files == [] then 0
    else
      var n := GoodPrefix(files[..|files| - 1]);
      assert files == files[..|files| - 1] + [files[|files| - 1]];
      if n == |files| - 1 && Good(files[|files| - 1]) then |files| else n
  }

  class RulesetService {
    const repo: RuleRepository

    constructor (repo: RuleRepository)
      ensures this.repo == repo
    {
      this.repo := repo;
    }

    /**
     * syncCanonicalRulesets with apply set: every source in its own transaction, up to the first
     * that fails.  Those before it stay applied.
     */
    method SyncRulesets(project: string, files: seq<RulesetFile>, now: int) returns (result: Result<RuleCounts, string>)
      requires forall i :: 0 <= i < |files| ==> IdsDerived(files[i])
      modifies repo
      ensures result.Ok? <==> Trim(project) != "" && GoodPrefix(files) == |files|
      ensures Trim(project) == "" ==> repo.pointers == old(repo.pointers)
      ensures Trim(project) != "" ==>
                repo.pointers == SyncAll(old(repo.pointers), Trim(project), SourcesFor(project, files[..GoodPrefix(files)]), now)
    {
      hide Good, IdsDerived, SourceFor, Replaced, GoodPrefix, Trim, NormalizeRules, RuleIds.Parses;
      if Trim(project) == "" {
        return Err("project_id is required");
      }
      var counts := RuleCounts(0, 0);
      PrefixMeans(files);
      for i := 0 to |files|
        invariant i <= GoodPrefix(files)
        invariant repo.pointers == SyncAll(old(repo.pointers), Trim(project), SourcesFor(project, files[..i]), now)
      {
        ghost var before := repo.pointers;
        assert SourcesFor(project, files[..i + 1])[..i] == SourcesFor(project, files[..i]);
        var applied := SyncFile(project, files[i], now);
        if applied.Err? {
          assert GoodPrefix(files) == i;
          return Err(applied.error);
        }
        assert GoodPrefix(files) != i;
        assert SourcesFor(project, files[..i + 1])[i] == SourceFor(project, files[i]);
        counts := RuleCounts(counts.upserted + applied.value.upserted, counts.deleted + applied.value.deleted);
      }
      assert files[..|files|] == files;
      return Ok(counts);
    }

    /** One turn of the loop: parse the file when it exists, then replace its rules in the store. */
    method SyncFile(project: string, file: RulesetFile, now: int) returns (result: Result<RuleCounts, string>)
      requires IdsDerived(file) && Trim(project) != ""
      modifies repo
      ensures result.Ok? <==> Good(file)
      ensures result.Err? ==> repo.pointers == old(repo.pointers)
      ensures result.Ok? ==>
                var source := SourceFor(project, file);
                repo.pointers == Replaced(old(repo.pointers), Trim(project), source.path, source.rules, now)
    {
      hide Replaced, Trim, NormalizeRules, RuleIds.Parses, RuleIds.RulesOf, Paths.NormalizeRepo, Upserted, Dropped;
      var rules: seq<RuleIds.Rule> := [];
      if file.content.Undecodable? {
        return Err("parse canonical ruleset");
      }
      ProjectTrimmed(project);
      if file.content.Decoded? {
        var parsed := RuleIds.ParseRules(project, file.path, file.content.raws);
        if parsed.Err? {
          return Err(parsed.error);
        }
        rules := parsed.value;
        ParsedMap(project, file, rules);
      } else {
        ParsedRulesAccepted(project, file.path, Paths.NormalizeRepo(file.path), []);
      }
      result := repo.SyncRulePointers(Trim(project), file.path, ToPointers(rules), now);
    }
  }

  lemma PrefixMeans(files: seq<RulesetFile>)
    ensures var n := GoodPrefix(files);
            n <= |files| && (forall i :: 0 <= i < n ==> Good(files[i])) && (n < |files| ==> !Good(files[n]))
  {
  }

  lemma ProjectTrimmed(project: string)
    ensures Trim(Trim(project)) == Trim(project)
  {
    TrimIdempotent(project);
  }

  /** The store accepts what the parser returns, and stores exactly the rules of the file. */
  lemma ParsedMap(project: string, file: RulesetFile, rules: seq<RuleIds.Rule>)
    requires file.content.Decoded? && IdsDerived(file) && RuleIds.Parses(file.content.raws)
    requires RuleIds.ParsedAs(rules, RuleIds.RulesOf(project, file.path, file.content.raws))
    requires RuleIds.AllWellKeyed(project, file.path, rules)
    ensures NormalizeRules(Trim(project), Paths.NormalizeRepo(file.path), ToPointers(rules)) == Ok(SourceFor(project, file).rules)
  {
    hide RuleIds.WellKeyed, RuleMap, NormalizeRules, StrictlySorted, RuleIds.Keys, Paths.NormalizeRepo, Trim, RuleIds.AssignedIds;
    var inOrder := RuleIds.RulesOf(project, file.path, file.content.raws);
    forall rule | rule in rules
      ensures Storable(project, file.path, rule)
    {
      assert rule in inOrder;
      var i :| 0 <= i < |inOrder| && inOrder[i] == rule;
      assert RuleIds.Acceptable(file.content.raws, i);
      RuleIds.TextsTrimmed(file.content.raws[i]);
    }
    ParsedRulesAccepted(project, file.path, Paths.NormalizeRepo(file.path), rules);
    WellKeyedDistinct(project, file.path, rules);
    RuleIds.RulesDistinct(project, file.path, file.content.raws);
    WellKeyedDistinct(project, file.path, inOrder);
    SameRuleMap(rules, inOrder);
  }

  /** Files at different normalized paths. */
  ghost predicate DistinctPaths(files: seq<RulesetFile>) {
    forall i, j :: 0 <= i < j < |files| ==> Paths.NormalizeRepo(files[i].path) != Paths.NormalizeRepo(files[j].path)
  }

  ghost predicate AllGood(files: seq<RulesetFile>) {
    forall i :: 0 <= i < |files| ==> Good(files[i]) && IdsDerived(files[i])
  }

  /** The pointer keys of the rules of a file. */
  ghost function RuleKeys(project: string, file: RulesetFile): set<string> {
    if file.content.Decoded?
    then set id | id in Elements(RuleIds.AssignedIds(file.content.raws)) :: RuleIds.PointerKey(project, file.path, id)
    else {}
  }

  lemma SourceKeys(project: string, file: RulesetFile)
    requires Good(file) && IdsDerived(file)
    ensures SourceFor(project, file).rules.Keys == RuleKeys(project, file)
    ensures forall key :: key in RuleKeys(project, file) ==>
              exists id :: RuleIds.IdText(id) && key == RuleIds.PointerKey(project, file.path, id)
  {
    hide RuleIds.PointerKey, RuleIds.Parses, RuleMap, RuleIds.RulesOf, Paths.NormalizeRepo, RuleKeys, RuleIds.IdText, RuleIds.WellKeyed;
    if file.content.Decoded? {
      var rules := RuleIds.RulesOf(project, file.path, file.content.raws);
      RuleIds.RulesDistinct(project, file.path, file.content.raws);
      WellKeyedDistinct(project, file.path, rules);
      RuleMapMeaning(rules);
      forall key
        ensures key in RuleMap(rules) <==> key in RuleKeys(project, file)
        ensures key in RuleKeys(project, file) ==> exists id :: RuleIds.IdText(id) && key == RuleIds.PointerKey(project, file.path, id)
      {
        KeyOfRule(project, file, key);
      }
    } else {
      NoRuleKeys(project, file);
    }
  }

  lemma NoRuleKeys(project: string, file: RulesetFile)
    requires file.content.Missing?
    ensures RuleKeys(project, file) == {} == RuleMap([]).Keys
  {
  }

  lemma KeyOfRule(project: string, file: RulesetFile, key: string)
    requires file.content.Decoded?
    requires RuleIds.AllWellKeyed(project, file.path, RuleIds.RulesOf(project, file.path, file.content.raws))
    ensures var rules := RuleIds.RulesOf(project, file.path, file.content.raws);
            key in RuleKeys(project, file) <==> exists rule :: rule in rules && rule.key == key
    ensures key in RuleKeys(project, file) ==> exists id :: RuleIds.IdText(id) && key == RuleIds.PointerKey(project, file.path, id)
  {
    hide RuleIds.PointerKey, RuleIds.IdText, RuleIds.AssignedIds, RuleIds.RuleIdFromKey, RuleIds.Summary, RuleIds.Content;
    var ids, rules := RuleIds.AssignedIds(file.content.raws), RuleIds.RulesOf(project, file.path, file.content.raws);
    if rule :| rule in rules && rule.key == key {
      var i :| 0 <= i < |rules| && rules[i] == rule;
      assert ids[i] in ids;
    }
    if key in RuleKeys(project, file) {
      var id :| id in Elements(ids) && key == RuleIds.PointerKey(project, file.path, id);
      var i :| 0 <= i < |ids| && ids[i] == id;
      assert rules[i] in rules && RuleIds.WellKeyed(project, file.path, rules[i]);
    }
  }

  /** Parsed files at different paths are compatible: a pointer key carries the path and an id without '#'. */
  lemma ParsedSourcesCompatible(project: string, files: seq<RulesetFile>)
    requires AllGood(files) && DistinctPaths(files)
    ensures Compatible(SourcesFor(project, files))
  {
    hide RuleIds.PointerKey, Good, IdsDerived, SourceFor, RuleKeys, Paths.NormalizeRepo, Trim, RuleIds.IdText;
    var sources := SourcesFor(project, files);
    forall i, j | 0 <= i < j < |files|
      ensures sources[i].path != sources[j].path && sources[i].rules.Keys !! sources[j].rules.Keys
    {
      SourcePath(project, files[i]);
      SourcePath(project, files[j]);
      SourceKeys(project, files[i]);
      SourceKeys(project, files[j]);
      forall key | key in RuleKeys(project, files[i])
        ensures key !in RuleKeys(project, files[j])
      {
        if key in RuleKeys(project, files[j]) {
          KeyTellsPath(project, files[i].path, files[j].path, key);
        }
      }
    }
  }

  lemma SourcePath(project: string, file: RulesetFile)
    ensures SourceFor(project, file).path == Paths.NormalizeRepo(file.path)
  {
  }

  lemma KeyTellsPath(project: string, path: string, path': string, key: string)
    requires exists id :: RuleIds.IdText(id) && key == RuleIds.PointerKey(project, path, id)
    requires exists id :: RuleIds.IdText(id) && key == RuleIds.PointerKey(project, path', id)
    ensures Paths.NormalizeRepo(path) == Paths.NormalizeRepo(path')
  {
    hide RuleIds.PointerKey, RuleIds.IdText, Trim;
    var a :| RuleIds.IdText(a) && key == RuleIds.PointerKey(project, path, a);
    var b :| RuleIds.IdText(b) && key == RuleIds.PointerKey(project, path', b);
    RuleIds.PointerKeyInjective(project, path, a, path', b);
  }

  /** After a sync, failed or not, the rule rows on the path of every applied file are exactly its parsed rules. */
  lemma ParsedRulesOnPath(t: Pointers, project: string, files: seq<RulesetFile>, now: int, i: nat)
    requires (forall j :: 0 <= j < |files| ==> IdsDerived(files[j])) && DistinctPaths(files) && i < GoodPrefix(files)
    ensures var t' := SyncAll(t, Trim(project), SourcesFor(project, files[..GoodPrefix(files)]), now);
            forall k: RowKey :: k.project == Trim(project) ==>
              (k in t' && t'[k].isRule && t'[k].path == Paths.NormalizeRepo(files[i].path) <==> k.key in RuleKeys(project, files[i]))
  {
    hide RuleKeys, Good, IdsDerived, SourceFor, Trim, Paths.NormalizeRepo, SyncAll;
    PrefixMeans(files);
    var applied := files[..GoodPrefix(files)];
    ParsedSourcesCompatible(project, applied);
    RulesOnPath(t, Trim(project), SourcesFor(project, applied), now, i);
    SourceKeys(project, files[i]);
    SourcePath(project, files[i]);
  }

  /** A failed file stops the sync: a row on no applied path, under no key of an applied file, is as before. */
  lemma UnappliedRowsKept(t: Pointers, project: string, files: seq<RulesetFile>, now: int, k: RowKey)
    requires (forall j :: 0 <= j < |files| ==> IdsDerived(files[j])) && DistinctPaths(files)
    requires forall i :: 0 <= i < GoodPrefix(files) ==> k.key !in RuleKeys(project, files[i])
    requires k in t ==> forall i :: 0 <= i < GoodPrefix(files) ==> t[k].path != Paths.NormalizeRepo(files[i].path)
    ensures var t' := SyncAll(t, Trim(project), SourcesFor(project, files[..GoodPrefix(files)]), now);
            (k in t' <==> k in t) && (k in t ==> t'[k] == t[k])
  {
    hide RuleKeys, Good, IdsDerived, SourceFor, Trim, Paths.NormalizeRepo, SyncAll;
    PrefixMeans(files);
    var applied := files[..GoodPrefix(files)];
    var sources := SourcesFor(project, applied);
    ParsedSourcesCompatible(project, applied);
    SyncIsExact(t, Trim(project), sources, now, k);
    forall i: nat | i < |sources|
      ensures !Supplies(sources, i, k.key) && (k in t ==> sources[i].path != t[k].path)
    {
      SourceKeys(project, files[i]);
      SourcePath(project, files[i]);
    }
  }

  /** The row of every parsed rule, with its texts taken from the file. */
  lemma StoredRule(t: Pointers, project: string, files: seq<RulesetFile>, now: int, i: nat, j: nat)
    requires (forall j :: 0 <= j < |files| ==> IdsDerived(files[j])) && DistinctPaths(files) && i < GoodPrefix(files)
    requires files[i].content.Decoded? && j < |files[i].content.raws|
    ensures var t' := SyncAll(t, Trim(project), SourcesFor(project, files[..GoodPrefix(files)]), now);
            var raw, id := files[i].content.raws[j], RuleIds.AssignedIds(files[i].content.raws)[j];
            var title := if Trim(raw.summary) != "" then Trim(raw.summary) else if Trim(raw.title) != "" then Trim(raw.title) else Trim(raw.content);
            var description := if Trim(raw.content) != "" then Trim(raw.content) else title;
            var k := RowKey(Trim(project), RuleIds.PointerKey(project, files[i].path, id));
            k in t' && t'[k] == Pointer(Paths.NormalizeRepo(files[i].path), true, Text(title, description, raw.labels), None, false, None, now)
  {
    hide RuleIds.PointerKey, Good, IdsDerived, Trim, Paths.NormalizeRepo, SyncAll, RuleMap, RuleIds.AssignedIds, RuleIds.Parses;
    PrefixMeans(files);
    var applied := files[..GoodPrefix(files)];
    var sources := SourcesFor(project, applied);
    ParsedSourcesCompatible(project, applied);
    var raws := files[i].content.raws;
    var rules := RuleIds.RulesOf(project, files[i].path, raws);
    assert rules[j] == RuleIds.RuleOf(project, files[i].path, raws[j], RuleIds.AssignedIds(raws)[j]);
    assert rules[j] in rules;
    GoodRules(project, files[i]);
    RuleMapMeaning(rules);
    RuleIds.TextsAre(raws[j]);
    assert sources[i] == SourceFor(project, files[i]);
    var k := RowKey(Trim(project), rules[j].key);
    assert Supplies(sources, i, k.key);
    SyncIsExact(t, Trim(project), sources, now, k);
  }

  lemma GoodRules(project: string, file: RulesetFile)
    requires Good(file) && IdsDerived(file) && file.content.Decoded?
    ensures DistinctRuleKeys(RuleIds.RulesOf(project, file.path, file.content.raws))
  {
    hide RuleIds.Parses, RuleIds.RulesOf;
    RuleIds.RulesDistinct(project, file.path, file.content.raws);
    WellKeyedDistinct(project, file.path, RuleIds.RulesOf(project, file.path, file.content.raws));
  }
}
