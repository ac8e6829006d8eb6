/**
 Rule identity (internal/service/backend/ruleset.go, context.go): ids are chosen while a ruleset
 file is read, printed into pointer keys, and recovered from them.
 */
module RuleIds {
  import opened Wrappers
  import opened Strings
  import opened Decimal
  import Pigeonhole

  /** The characters of ^[A-Za-z0-9._:-]{1,128}$ */
  predicate IdText(id: string) {
    id != "" && forall i :: 0 <= i < |id| ==> IdChar(id[i])
  }

  predicate ValidId(id: string) {
    IdText(id) && |id| <= 128
  }

  // ---------------------------------------------------------------- choosing an id

  /** The i-th id tried for a rule without one: base, base-2, base-3, ... */
  function Candidate(base: string, i: nat): string {
    if i == 0 then base else base + "-" + Itoa(i + 1)
  }

  lemma CandidatesDistinct(base: string, i: nat, j: nat)
    requires i < j
    ensures Candidate(base, i) != Candidate(base, j)
  {
    if i == 0 {
      assert |Candidate(base, j)| > |base|;
    } else {
      var k := |base| + 1;
      assert Candidate(base, i)[k..] == Itoa(i + 1) && Candidate(base, j)[k..] == Itoa(j + 1);
      if Itoa(i + 1) == Itoa(j + 1) {
        ItoaInjective(i + 1, j + 1);
      }
    }
  }

  ghost predicate FirstFree(base: string, seen: set<string>, i: nat) {
    Candidate(base, i) !in seen && forall j :: 0 <= j < i ==> Candidate(base, j) in seen
  }

  lemma TriedFitSeen(base: string, seen: set<string>, i: nat)
    requires forall j :: 0 <= j < i ==> Candidate(base, j) in seen
    ensures i <= |seen|
  {
    var tried := seq(i, j requires 0 <= j => Candidate(base, j));
    forall a, b | 0 <= a < b < i
      ensures tried[a] != tried[b]
    {
      CandidatesDistinct(base, a, b);
    }
    Pigeonhole.DistinctFit(tried, seen);
  }

  /** canonicalRuleID; `derived` is the content-derived id.  The search ends within |seen| + 1 tries. */
  method CanonicalRuleId(rawId: string, derived: string, seen: set<string>)
    returns (result: Result<string, string>, seen': set<string>)
    ensures result.Err? <==> Trim(rawId) != "" && (!ValidId(Trim(rawId)) || Trim(rawId) in seen)
    ensures result.Ok? ==> result.value !in seen && seen' == seen + {result.value}
    ensures result.Ok? && Trim(rawId) != "" ==> result.value == Trim(rawId) && IdText(result.value)
    ensures result.Ok? && Trim(rawId) == "" ==>
              exists i :: 0 <= i <= |seen| && result.value == Candidate(derived, i) && FirstFree(derived, seen, i)
  {
    var ruleId := Trim(rawId);
    if ruleId != "" {
      if !ValidId(ruleId) {
        return Err("rule id has invalid format"), seen;
      }
      if ruleId in seen {
        return Err("duplicate rule id"), seen;
      }
      return Ok(ruleId), seen + {ruleId};
    }
    ruleId := derived;
    var tries := 0;
    TriedFitSeen(derived, seen, 0);
    while ruleId in seen
      invariant ruleId == Candidate(derived, tries) && tries <= |seen|
      invariant forall j :: 0 <= j < tries ==> Candidate(derived, j) in seen
      decreases |seen| - tries
    {
      TriedFitSeen(derived, seen, tries + 1);
      tries := tries + 1;
      ruleId := derived + "-" + Itoa(tries + 1);
    }
    assert FirstFree(derived, seen, tries);
    return Ok(ruleId), seen + {ruleId};
  }

  // ---------------------------------------------------------------- pointer keys

  /** canonicalRulePointerKey */
  function PointerKey(project: string, source: string, ruleId: string): string {
    Trim(project) + ":" + Trim(source) + "#" + Trim(ruleId)
  }

  function LastIndex(s: string, c: char): (i: int)
    ensures -1 <= i < |s|
    ensures i >= 0 ==> s[i] == c
    ensures forall j :: i < j < |s| ==> s[j] != c
  {
    if s == [] then -1 else if s[|s| - 1] == c then |s| - 1 else LastIndex(s[..|s| - 1], c)
  }

  /** ruleIDFromPointerKey of the service: falls back to the whole key. */
  function RuleIdFromKey(pointerKey: string): string {
    var key := Trim(pointerKey);
    var separator := LastIndex(key, '#');
    if separator < 0 || separator >= |key| - 1 then key
    else if Trim(key[separator + 1..]) == "" then key
    else Trim(key[separator + 1..])
  }

  /** What follows the last '#' is the id; without one, or with nothing but spaces after it, the key is. */
  lemma IdAfterHash(pointerKey: string, before: string, id: string)
    ensures '#' !in Trim(pointerKey) ==> RuleIdFromKey(pointerKey) == Trim(pointerKey)
    ensures Trim(pointerKey) == before + "#" + id && '#' !in id ==>
              RuleIdFromKey(pointerKey) == if Trim(id) == "" then Trim(pointerKey) else Trim(id)
  {
    hide Trim;
    var key := Trim(pointerKey);
    if key == before + "#" + id && '#' !in id {
      assert key[|before|] == '#' && key[|before| + 1..] == id;
      assert LastIndex(key, '#') == |before|;
      TrimNothing();
    }
  }

  lemma TrimNothing()
    ensures Trim("") == ""
  {
  }

  lemma IdTextTrimmed(id: string)
    requires IdText(id)
    ensures Trim(id) == id && '#' !in id
  {
    TrimShape(id);
  }

  /** The id is read back from its pointer key, whatever '#' the source path contains. */
  lemma RuleIdRecovered(project: string, source: string, id: string)
    requires IdText(id)
    ensures RuleIdFromKey(PointerKey(project, source, id)) == id
  {
    IdTextTrimmed(id);
    var prefix := Trim(project) + ":" + Trim(source);
    var key := PointerKey(project, source, id);
    assert key == prefix + "#" + id;
    TrimShape(project);
    TrimShape(key);
    assert key[|key| - 1] == id[|id| - 1];
    assert key[0] == if Trim(project) == "" then ':' else Trim(project)[0];
    assert Trimmed(key);
    assert key[|prefix|] == '#';
    assert forall j :: |prefix| < j < |key| ==> key[j] == id[j - |prefix| - 1];
    assert LastIndex(key, '#') == |prefix|;
    assert key[|prefix| + 1..] == id;
  }

  /** Keys of one project tell both the source and the rule. */
  lemma PointerKeyInjective(project: string, source: string, id: string, source': string, id': string)
    requires IdText(id) && IdText(id') && PointerKey(project, source, id) == PointerKey(project, source', id')
    ensures id == id' && Trim(source) == Trim(source')
  {
    RuleIdRecovered(project, source, id);
    RuleIdRecovered(project, source', id');
    IdTextTrimmed(id);
    var key := PointerKey(project, source, id);
    var p := |Trim(project)| + 1;
    var q := |key| - |id| - 1;
    assert key[p..q] == Trim(source);
    assert key[p..q] == Trim(source');
  }

  lemma KeyTrimmed(project: string, source: string, id: string)
    requires IdText(id)
    ensures var key := PointerKey(project, source, id); key != "" && Trim(key) == key
  {
    IdTextTrimmed(id);
    TrimShape(project);
    var key := PointerKey(project, source, id);
    TrimShape(key);
    assert key[|key| - 1] == id[|id| - 1];
    assert key[0] == if Trim(project) == "" then ':' else Trim(project)[0];
  }

  // ---------------------------------------------------------------- reading a ruleset

  /** strings.TrimSpace of the first value that is not blank. */
  function FirstNonEmpty(values: seq<string>): string {
    if values == [] then "" else if Trim(values[0]) != "" then Trim(values[0]) else FirstNonEmpty(values[1..])
  }

  lemma {:induction false} FirstNonEmptyTrimmed(values: seq<string>)
    ensures Trim(FirstNonEmpty(values)) == FirstNonEmpty(values)
  {
    if values != [] {
      TrimIdempotent(values[0]);
      FirstNonEmptyTrimmed(values[1..]);
    } else {
      TrimShape("");
    }
  }

  /**
   * A decoded rule: `derived` is its content-derived id, which has the characters of an id, and
   * `labels` its normalized enforcement and tags.
   */
  datatype RawRule = RawRule(id: string, derived: string, summary: string, title: string, content: string,
                             labels: string, enforcementOk: bool)

  datatype Rule = Rule(key: string, id: string, summary: string, content: string, labels: string)

  function Summary(raw: RawRule): string {
    FirstNonEmpty([raw.summary, raw.title, raw.content])
  }

  function Content(raw: RawRule): string {
    if Trim(raw.content) == "" then Summary(raw) else Trim(raw.content)
  }

  function RuleOf(project: string, source: string, raw: RawRule, id: string): Rule {
    Rule(PointerKey(project, source, id), id, Summary(raw), Content(raw), raw.labels)
  }

  // ---------------------------------------------------------------- the ids of a whole file

  lemma FirstFreeExists(base: string, seen: set<string>)
    ensures exists i: nat :: FirstFree(base, seen, i)
  {
    var i: nat := 0;
    TriedFitSeen(base, seen, 0);
    while Candidate(base, i) in seen
      invariant i <= |seen| && forall j :: 0 <= j < i ==> Candidate(base, j) in seen
      decreases |seen| - i
    {
      TriedFitSeen(base, seen, i + 1);
      i := i + 1;
    }
    assert FirstFree(base, seen, i);
  }

  /** The id a rule gets after those in `seen`: its own, or the first free one derived from its content. */
  ghost function NextId(raw: RawRule, seen: set<string>): string {
    if Trim(raw.id) != "" then Trim(raw.id)
    else
      FirstFreeExists(raw.derived, seen);
      var i: nat :| FirstFree(raw.derived, seen, i);
      Candidate(raw.derived, i)
  }

  lemma NextIdIsFirstFree(raw: RawRule, seen: set<string>, i: nat)
    requires Trim(raw.id) == "" && FirstFree(raw.derived, seen, i)
    ensures NextId(raw, seen) == Candidate(raw.derived, i)
  {
    hide Candidate;
    FirstFreeExists(raw.derived, seen);
    var k: nat :| FirstFree(raw.derived, seen, k) && NextId(raw, seen) == Candidate(raw.derived, k);
    assert i == k;
  }

  ghost function AssignedIds(raws: seq<RawRule>): (ids: seq<string>)
    ensures |ids| == |raws|
  {
    if raws == [] then []
    else
      var rest := AssignedIds(raws[..|raws| - 1]);
      rest + [NextId(raws[|raws| - 1], Elements(rest))]
  }

  /** A file is accepted when every rule has a text and a valid enforcement, and an own id that is valid and still free. */
  ghost predicate Parses(raws: seq<RawRule>) {
    forall i :: 0 <= i < |raws| ==> Acceptable(raws, i)
  }

  ghost predicate Acceptable(raws: seq<RawRule>, i: nat)
    requires i < |raws|
  {
    && Summary(raws[i]) != "" && raws[i].enforcementOk
    && (Trim(raws[i].id) != "" ==> ValidId(Trim(raws[i].id)) && Trim(raws[i].id) !in Elements(AssignedIds(raws[..i])))
  }

  /** The parsed rules, in file order. */
  ghost function RulesOf(project: string, source: string, raws: seq<RawRule>): (rules: seq<Rule>)
    ensures |rules| == |raws|
    ensures forall i :: 0 <= i < |raws| ==> rules[i] == RuleOf(project, source, raws[i], AssignedIds(raws)[i])
  {
    seq(|raws|, i requires 0 <= i < |raws| => RuleOf(project, source, raws[i], AssignedIds(raws)[i]))
  }

  lemma RulesOfNext(project: string, source: string, raws: seq<RawRule>, i: nat)
    requires i < |raws|
    ensures var seen := AssignedIds(raws[..i]);
            && AssignedIds(raws[..i + 1]) == seen + [NextId(raws[i], Elements(seen))]
            && RulesOf(project, source, raws[..i + 1])
               == RulesOf(project, source, raws[..i]) + [RuleOf(project, source, raws[i], NextId(raws[i], Elements(seen)))]
  {
    hide RuleOf, NextId;
    assert raws[..i + 1][..i] == raws[..i];
  }

  ghost predicate DistinctIds(rules: seq<Rule>) {
    forall i, j :: 0 <= i < j < |rules| ==> rules[i].id != rules[j].id
  }

  function Keys(rules: seq<Rule>): seq<string> {
    seq(|rules|, i requires 0 <= i < |rules| => rules[i].key)
  }

  /** A rule as parsing leaves it: an id that its key gives back. */
  ghost predicate WellKeyed(project: string, source: string, rule: Rule) {
    IdText(rule.id) && rule.key == PointerKey(project, source, rule.id) && RuleIdFromKey(rule.key) == rule.id
  }

  lemma WellKeyedRule(project: string, source: string, raw: RawRule, id: string)
    requires IdText(id)
    ensures WellKeyed(project, source, RuleOf(project, source, raw, id))
  {
    RuleIdRecovered(project, source, id);
  }

  lemma KeysTellIds(project: string, source: string, a: Rule, b: Rule)
    requires WellKeyed(project, source, a) && WellKeyed(project, source, b) && a.key == b.key
    ensures a.id == b.id
  {
  }

  lemma {:induction false} CandidateText(base: string, i: nat)
    requires IdText(base)
    ensures IdText(Candidate(base, i))
  {
  }

  /** The id a rule gets is a text of id characters, and differs from those before it. */
  lemma NextIdFresh(raw: RawRule, seen: set<string>)
    requires IdText(raw.derived)
    requires Trim(raw.id) != "" ==> ValidId(Trim(raw.id)) && Trim(raw.id) !in seen
    ensures IdText(NextId(raw, seen)) && NextId(raw, seen) !in seen
  {
    hide Candidate, IdText;
    if Trim(raw.id) == "" {
      FirstFreeExists(raw.derived, seen);
      var i: nat :| FirstFree(raw.derived, seen, i);
      NextIdIsFirstFree(raw, seen, i);
      CandidateText(raw.derived, i);
    }
  }

  lemma AppendDistinct(rules: seq<Rule>, ids: seq<string>, rule: Rule)
    requires DistinctIds(rules) && |ids| == |rules| && (forall i :: 0 <= i < |rules| ==> rules[i].id == ids[i])
    requires rule.id !in Elements(ids)
    ensures DistinctIds(rules + [rule])
  {
    forall i | 0 <= i < |rules|
      ensures rules[i].id != rule.id
    {
      assert ids[i] in ids;
    }
  }

  /**
   * The loop of parseCanonicalRulesetFile after decoding, and its final sort by pointer key: which
   * files are accepted, and that an accepted file gives its rules in key order.
   */
  method ParseRules(project: string, source: string, raws: seq<RawRule>) returns (result: Result<seq<Rule>, string>)
    requires forall i :: 0 <= i < |raws| ==> IdText(raws[i].derived)
    ensures result.Ok? <==> Parses(raws)
    ensures result.Ok? ==> ParsedAs(result.value, RulesOf(project, source, raws)) && AllWellKeyed(project, source, result.value)
  {
    hide Trim, IdText, WellKeyed, PointerKey, RuleIdFromKey, StrictlySorted, Keys, Candidate, FirstFree, NextId, RuleOf;
    hide AssignedIds, RulesOf, DistinctIds, Elements, Summary, Content;
    var seen: set<string> := {};
    var rules: seq<Rule> := [];
    NothingParsed(project, source, raws);
    for i := 0 to |raws|
      invariant rules == RulesOf(project, source, raws[..i]) && seen == Elements(AssignedIds(raws[..i]))
      invariant DistinctIds(rules) && AllWellKeyed(project, source, rules)
      invariant forall j :: 0 <= j < i ==> Acceptable(raws, j)
    {
      var raw := raws[i];
      RulesOfNext(project, source, raws, i);
      var summary := Summary(raw);
      if summary == "" {
        assert !Acceptable(raws, i);
        return Err("rule requires summary/title/content");
      }
      if !raw.enforcementOk {
        assert !Acceptable(raws, i);
        return Err("enforcement must be hard|soft");
      }
      ghost var before := seen;
      var id;
      id, seen := CanonicalRuleId(raw.id, raw.derived, seen);
      if id.Err? {
        assert !Acceptable(raws, i);
        return Err(id.error);
      }
      assert Acceptable(raws, i);
      ChosenId(raw, before, id.value);
      ElementsAppend(AssignedIds(raws[..i]), id.value);
      var rule := Rule(PointerKey(project, source, id.value), id.value, summary, Content(raw), raw.labels);
      RuleGiven(project, source, raw, id.value);
      NextIdFresh(raw, before);
      WellKeyedRule(project, source, raw, id.value);
      RuleIdsAre(project, source, raws[..i]);
      AppendDistinct(rules, AssignedIds(raws[..i]), rule);
      rules := rules + [rule];
    }
    assert raws[..|raws|] == raws;
    rules := SortRules(project, source, rules);
    return Ok(rules);
  }

  /** The texts of a rule: the first of summary, title and content that is not blank, and the content or else that. */
  lemma TextsAre(raw: RawRule)
    ensures Summary(raw) == if Trim(raw.summary) != "" then Trim(raw.summary) else if Trim(raw.title) != "" then Trim(raw.title) else Trim(raw.content)
    ensures Content(raw) == if Trim(raw.content) != "" then Trim(raw.content) else Summary(raw)
  {
    hide Trim;
    assert [raw.content][1..] == [] && FirstNonEmpty([]) == "";
    assert FirstNonEmpty([raw.content]) == Trim(raw.content);
    assert [raw.title, raw.content][1..] == [raw.content];
    assert FirstNonEmpty([raw.title, raw.content]) == if Trim(raw.title) != "" then Trim(raw.title) else Trim(raw.content);
    assert [raw.summary, raw.title, raw.content][1..] == [raw.title, raw.content];
  }

  /** A rule with some text, a valid enforcement, and if it has an id of its own, one of 1 to 128 id characters not yet taken. */
  ghost predicate AcceptedAt(raws: seq<RawRule>, i: nat)
    requires i < |raws|
  {
    var raw, id := raws[i], Trim(raws[i].id);
    && (Trim(raw.summary) != "" || Trim(raw.title) != "" || Trim(raw.content) != "") && raw.enforcementOk
    && |id| <= 128 && (id != "" ==> id !in AssignedIds(raws[..i]))
    && forall k :: 0 <= k < |id| ==>
         || 'A' <= id[k] <= 'Z' || 'a' <= id[k] <= 'z' || '0' <= id[k] <= '9'
         || id[k] == '.' || id[k] == '_' || id[k] == ':' || id[k] == '-'
  }

  /** When a file is accepted. */
  lemma AcceptedExactly(raws: seq<RawRule>)
    ensures Parses(raws) <==> forall i :: 0 <= i < |raws| ==> AcceptedAt(raws, i)
  {
    hide Acceptable, AcceptedAt;
    forall i | 0 <= i < |raws|
      ensures Acceptable(raws, i) <==> AcceptedAt(raws, i)
    {
      AcceptedOne(raws, i);
    }
  }

  lemma AcceptedOne(raws: seq<RawRule>, i: nat)
    requires i < |raws|
    ensures Acceptable(raws, i) <==> AcceptedAt(raws, i)
  {
    hide Trim, Summary, AssignedIds;
    TextsAre(raws[i]);
  }

  lemma TextsTrimmed(raw: RawRule)
    requires Summary(raw) != ""
    ensures Trim(Summary(raw)) == Summary(raw) && Content(raw) != "" && Trim(Content(raw)) == Content(raw)
  {
    hide Trim;
    FirstNonEmptyTrimmed([raw.summary, raw.title, raw.content]);
    TrimIdempotent(raw.content);
  }

  /** The rules of an accepted file have distinct ids, which their keys give back. */
  lemma {:induction false} RulesDistinct(project: string, source: string, raws: seq<RawRule>)
    requires Parses(raws) && forall i :: 0 <= i < |raws| ==> IdText(raws[i].derived)
    ensures AllWellKeyed(project, source, RulesOf(project, source, raws)) && DistinctIds(RulesOf(project, source, raws))
  {
    hide WellKeyed, RuleOf, NextId, DistinctIds, Summary, Trim, IdText;
    if raws != [] {
      var n := |raws| - 1;
      var front, raw := raws[..n], raws[n];
      forall i | 0 <= i < n
        ensures Acceptable(front, i)
      {
        assert Acceptable(raws, i) && front[..i] == raws[..i];
      }
      RulesDistinct(project, source, front);
      assert Acceptable(raws, n) && raws[..n + 1] == raws;
      RulesOfNext(project, source, raws, n);
      var id := NextId(raw, Elements(AssignedIds(front)));
      NextIdFresh(raw, Elements(AssignedIds(front)));
      WellKeyedRule(project, source, raw, id);
      RuleGiven(project, source, raw, id);
      RuleIdsAre(project, source, front);
      AppendDistinct(RulesOf(project, source, front), AssignedIds(front), RuleOf(project, source, raw, id));
    } else {
      NothingParsed(project, source, raws);
      assert raws[..0] == raws;
    }
  }

  /** The same rules, each once, in the order of their keys. */
  ghost predicate ParsedAs(sorted: seq<Rule>, rules: seq<Rule>) {
    |sorted| == |rules| && DistinctIds(sorted) && StrictlySorted(Keys(sorted)) && forall rule :: rule in rules <==> rule in sorted
  }

  ghost predicate AllWellKeyed(project: string, source: string, rules: seq<Rule>) {
    forall i :: 0 <= i < |rules| ==> WellKeyed(project, source, rules[i])
  }

  lemma NothingParsed(project: string, source: string, raws: seq<RawRule>)
    ensures RulesOf(project, source, raws[..0]) == [] && AssignedIds(raws[..0]) == [] && Elements([]) == {} && DistinctIds([])
  {
  }

  lemma RuleGiven(project: string, source: string, raw: RawRule, id: string)
    ensures RuleOf(project, source, raw, id) == Rule(PointerKey(project, source, id), id, Summary(raw), Content(raw), raw.labels)
  {
  }

  lemma RuleIdsAre(project: string, source: string, raws: seq<RawRule>)
    ensures var rules := RulesOf(project, source, raws); forall i :: 0 <= i < |raws| ==> rules[i].id == AssignedIds(raws)[i]
  {
    hide AssignedIds;
  }

  lemma ChosenId(raw: RawRule, seen: set<string>, id: string)
    requires Trim(raw.id) != "" ==> id == Trim(raw.id)
    requires Trim(raw.id) == "" ==> exists i :: 0 <= i <= |seen| && id == Candidate(raw.derived, i) && FirstFree(raw.derived, seen, i)
    ensures id == NextId(raw, seen)
  {
    hide Candidate, FirstFree;
    if Trim(raw.id) == "" {
      var i :| 0 <= i <= |seen| && id == Candidate(raw.derived, i) && FirstFree(raw.derived, seen, i);
      NextIdIsFirstFree(raw, seen, i);
    }
  }

  /** The order in a file matters: an own id that equals one derived before it is refused, the other way round it is not. */
  lemma OrderDecides(own: RawRule, derived: RawRule)
    requires Trim(derived.id) == "" && Trim(own.id) == derived.derived && ValidId(derived.derived)
    requires Summary(own) != "" && Summary(derived) != "" && own.enforcementOk && derived.enforcementOk
    ensures !Parses([derived, own]) && Parses([own, derived])
  {
    hide Candidate, Summary, Trim;
    assert FirstFree(derived.derived, {}, 0) by { FirstCandidate(derived.derived); }
    NextIdIsFirstFree(derived, {}, 0);
    FirstCandidate(derived.derived);
    assert [derived, own][..1] == [derived] && [derived][..0] == [] && Elements([]) == {};
    assert AssignedIds([derived]) == [derived.derived];
    assert derived.derived in [derived.derived];
    assert !Acceptable([derived, own], 1);
    assert [own, derived][..0] == [] && AssignedIds([]) == [];
    assert Acceptable([own, derived], 0) && Acceptable([own, derived], 1);
  }

  lemma FirstCandidate(base: string)
    ensures Candidate(base, 0) == base
  {
  }

  /** sort.Slice by pointer key; the keys are distinct because the ids are. */
  method SortRules(project: string, source: string, rules: seq<Rule>) returns (sorted: seq<Rule>)
    requires DistinctIds(rules) && AllWellKeyed(project, source, rules)
    ensures ParsedAs(sorted, rules) && AllWellKeyed(project, source, sorted)
  {
    hide Less, WellKeyed, StrictlySorted, Keys;
    sorted := [];
    EmptySorted();
    for i := 0 to |rules|
      invariant |sorted| == i && StrictlySorted(Keys(sorted))
      invariant forall rule :: rule in rules[..i] <==> rule in sorted
      invariant forall j :: 0 <= j < i ==> WellKeyed(project, source, sorted[j])
    {
      var rule := rules[i];
      var at := 0;
      while at < |sorted| && Less(sorted[at].key, rule.key)
        invariant at <= |sorted|
        invariant forall j :: 0 <= j < at ==> Less(sorted[j].key, rule.key)
      {
        at := at + 1;
      }
      if at < |sorted| {
        assert sorted[at] in rules[..i];
        assert sorted[at].id != rule.id;
        if sorted[at].key == rule.key { KeysTellIds(project, source, sorted[at], rule); }
        LessTotal(sorted[at].key, rule.key);
      }
      InsertAt(sorted, at, rule);
      assert rules[..i + 1] == rules[..i] + [rule];
      sorted := sorted[..at] + [rule] + sorted[at..];
    }
    assert rules[..|rules|] == rules;
    SortedDistinct(project, source, sorted);
  }

  lemma EmptySorted()
    ensures StrictlySorted(Keys([]))
  {
  }

  lemma SortedDistinct(project: string, source: string, rules: seq<Rule>)
    requires StrictlySorted(Keys(rules)) && forall i :: 0 <= i < |rules| ==> WellKeyed(project, source, rules[i])
    ensures DistinctIds(rules)
  {
    hide PointerKey, IdText, RuleIdFromKey;
    forall i, j | 0 <= i < j < |rules|
      ensures rules[i].id != rules[j].id
    {
      assert Less(Keys(rules)[i], Keys(rules)[j]);
      LessTotal(rules[i].key, rules[j].key);
      assert rules[i].key == PointerKey(project, source, rules[i].id);
    }
  }

  lemma InsertAt(sorted: seq<Rule>, at: nat, rule: Rule)
    requires at <= |sorted| && StrictlySorted(Keys(sorted))
    requires forall j :: 0 <= j < at ==> Less(sorted[j].key, rule.key)
    requires at < |sorted| ==> Less(rule.key, sorted[at].key)
    ensures StrictlySorted(Keys(sorted[..at] + [rule] + sorted[at..]))
    ensures forall r :: r in sorted[..at] + [rule] + sorted[at..] <==> r in sorted || r == rule
  {
    hide Less;
    var all := sorted[..at] + [rule] + sorted[at..];
    assert sorted == sorted[..at] + sorted[at..];
    forall i, j | 0 <= i < j < |all|
      ensures Less(Keys(all)[i], Keys(all)[j])
    {
      if i == at {
        if j > at + 1 {
          assert Less(Keys(sorted)[at], Keys(sorted)[j - 1]);
          LessTransitive(rule.key, sorted[at].key, sorted[j - 1].key);
        }
      } else if j != at {
        var i', j' := if i < at then i else i - 1, if j < at then j else j - 1;
        assert Less(Keys(sorted)[i'], Keys(sorted)[j']);
      }
    }
  }
}
