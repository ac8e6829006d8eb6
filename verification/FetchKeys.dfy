/**
 The textual keys of plans, receipts, tasks and runs (internal/service/backend/fetch.go): printers
 and parsers that undo each other, and the dispatch of `Fetch` over them.
 */
module FetchKeys {
  import opened Wrappers
  import opened Strings
  import opened Decimal

  const MAX_KEY: nat := 512
  const MAX_INT64: nat := 0x7FFF_FFFF_FFFF_FFFF

  /** requestIDPattern: ^[A-Za-z0-9._:-]{8,128}$ */
  predicate RequestId(id: string) {
    8 <= |id| <= 128 && forall i :: 0 <= i < |id| ==> IdChar(id[i])
  }

  /** The length of a key in bytes, which is what its limit counts. */
  function ByteLength(s: string): nat {
    if s == [] then 0
    else
      var n := s[0] as int;
      (if n < 0x80 then 1 else if n < 0x800 then 2 else if n < 0x1_0000 then 3 else 4) + ByteLength(s[1..])
  }

  /** The length is that of the characters, each of which takes one to four bytes. */
  lemma {:induction false} ByteLengthExactly(a: string, c: char, b: string)
    ensures ByteLength("") == 0 && ByteLength(a + b) == ByteLength(a) + ByteLength(b)
    ensures 1 <= ByteLength([c]) <= 4
    ensures ByteLength([c]) <= 1 <==> c as int <= 127
    ensures ByteLength([c]) <= 2 <==> c as int <= 2047
    ensures ByteLength([c]) <= 3 <==> c as int <= 65535
  {
    if a == [] {
      assert a + b == b;
    } else {
      ByteLengthExactly(a[1..], c, b);
      assert (a + b)[1..] == a[1..] + b;
    }
  }

  function Limited(key: string): string {
    if ByteLength(key) > MAX_KEY then "" else key
  }

  // ---------------------------------------------------------------- plans and receipts

  function ParsePrefixed(raw: string, prefix: string): Option<string> {
    var key := Trim(raw);
    if !HasPrefix(key, prefix) then None
    else
      var receiptId := Trim(key[|prefix|..]);
      if RequestId(receiptId) then Some(receiptId) else None
  }

  function ParsePlan(raw: string): Option<string> {
    ParsePrefixed(raw, "plan:")
  }

  function ParseReceipt(raw: string): Option<string> {
    ParsePrefixed(raw, "receipt:")
  }

  function ReceiptKey(receiptId: string): string {
    var id := Trim(receiptId);
    if id == "" then "" else Limited("receipt:" + id)
  }

  lemma RequestIdTrimmed(id: string)
    requires RequestId(id)
    ensures Trim(id) == id && '#' !in id
  {
    TrimShape(id);
  }

  lemma {:induction false} AsciiLength(s: string)
    requires forall i :: 0 <= i < |s| ==> (s[i] as int) < 0x80
    ensures ByteLength(s) == |s|
  {
    if s != [] {
      AsciiLength(s[1..]);
    }
  }

  lemma ParsesPrefixed(prefix: string, id: string)
    requires prefix != "" && !IsSpace(prefix[0]) && RequestId(id)
    ensures ParsePrefixed(prefix + id, prefix) == Some(id)
  {
    RequestIdTrimmed(id);
    TrimShape(prefix + id);
    assert (prefix + id)[|prefix + id| - 1] == id[|id| - 1];
    assert (prefix + id)[|prefix|..] == id;
  }

  /** Printing a receipt id and parsing the key gives the id back. */
  lemma ReceiptRoundTrip(id: string)
    requires RequestId(id)
    ensures ParseReceipt(ReceiptKey(id)) == Some(id)
    ensures ParsePlan("plan:" + id) == Some(id)
  {
    RequestIdTrimmed(id);
    AsciiLength("receipt:" + id);
    ParsesPrefixed("receipt:", id);
    ParsesPrefixed("plan:", id);
  }

  // ---------------------------------------------------------------- tasks

  datatype TaskRef = TaskRef(planKey: string, receiptId: string, taskKey: string)

  function Index(s: string, c: char): (i: int)
    ensures -1 <= i < |s|
    ensures i >= 0 ==> s[i] == c
    ensures forall j :: 0 <= j < (if i < 0 then |s| else i) ==> s[j] != c
  {
    if s == [] then -1
    else if s[0] == c then 0
    else if Index(s[1..], c) < 0 then -1 else Index(s[1..], c) + 1
  }

  function ParseTask(raw: string): Option<TaskRef> {
    var key := Trim(raw);
    if !HasPrefix(key, "task:") then None
    else
      var remainder := Trim(key[5..]);
      var separator := Index(remainder, '#');
      if separator <= 0 || separator >= |remainder| - 1 then None
      else
        var planKey := Trim(remainder[..separator]);
        var receiptId := ParsePlan(planKey);
        var taskKey := Trim(remainder[separator + 1..]);
        if receiptId.None? || taskKey == "" then None
        else Some(TaskRef(planKey, receiptId.value, taskKey))
  }

  function TaskKey(planKey: string, taskKey: string): string {
    var plan, task := Trim(planKey), Trim(taskKey);
    if plan == "" || task == "" then "" else Limited("task:" + plan + "#" + task)
  }

  /** A parsed plan key contains no '#': outer spaces aside it is the prefix and an id. */
  lemma PlanKeyHasNoHash(planKey: string)
    requires ParsePlan(planKey).Some? && Trimmed(planKey)
    ensures '#' !in planKey && planKey != "" && !IsSpace(planKey[0])
  {
    TrimShape(planKey);
    var rest := planKey[5..];
    TrimShape(rest);
    RequestIdTrimmed(Trim(rest));
    TrimKeeps(rest, '#');
    assert planKey == "plan:" + rest;
  }

  lemma {:induction false} TrimLeftKeeps(s: string, c: char)
    requires !IsSpace(c) && c in s
    ensures c in TrimLeft(s)
  {
    if IsSpace(s[0]) {
      assert c in s[1..];
      TrimLeftKeeps(s[1..], c);
    }
  }

  lemma {:induction false} TrimRightKeeps(s: string, c: char)
    requires !IsSpace(c) && c in s
    ensures c in TrimRight(s)
  {
    if IsSpace(s[|s| - 1]) {
      assert s == s[..|s| - 1] + [s[|s| - 1]];
      TrimRightKeeps(s[..|s| - 1], c);
    }
  }

  lemma TrimKeeps(s: string, c: char)
    requires !IsSpace(c)
    ensures c in s ==> c in Trim(s)
  {
    if c in s {
      TrimLeftKeeps(s, c);
      TrimRightKeeps(TrimLeft(s), c);
    }
  }

  /** A printed task key parses to the plan, the receipt and the task it was printed from. */
  lemma TaskRoundTrip(planKey: string, taskKey: string)
    requires ParsePlan(planKey).Some? && Trimmed(planKey) && Trimmed(taskKey) && taskKey != ""
    requires ByteLength("task:" + planKey + "#" + taskKey) <= MAX_KEY
    ensures ParseTask(TaskKey(planKey, taskKey)) == Some(TaskRef(planKey, ParsePlan(planKey).value, taskKey))
  {
    hide ParsePlan, Index, ByteLength, Trim, Trimmed, IsSpace;
    PlanKeyHasNoHash(planKey);
    TrimShape(planKey);
    TrimShape(taskKey);
    TaskKeyParts(planKey, taskKey);
  }

  /** Outer spaces aside, exactly the keys built from a plan key, a task and few enough bytes parse to their parts. */
  lemma TaskRoundTripExactly(planKey: string, taskKey: string)
    ensures (exists id :: ParseTask(TaskKey(planKey, taskKey)) == Some(TaskRef(Trim(planKey), id, Trim(taskKey))))
            <==> ParsePlan(planKey).Some? && Trim(taskKey) != ""
                 && ByteLength("task:" + Trim(planKey) + "#" + Trim(taskKey)) <= MAX_KEY
  {
    hide Index, ByteLength, Trimmed, IsSpace, TrimLeft, TrimRight, RequestId;
    TrimShape(planKey);
    TrimShape(taskKey);
    TrimShape("");
    TrimIdempotent(planKey);
    TrimIdempotent(taskKey);
    var plan, task := Trim(planKey), Trim(taskKey);
    assert ParsePlan(plan) == ParsePlan(planKey) && TaskKey(plan, task) == TaskKey(planKey, taskKey);
    if ParsePlan(plan).Some? && task != "" && ByteLength("task:" + plan + "#" + task) <= MAX_KEY {
      TaskRoundTrip(plan, task);
    }
    assert ParseTask("").None?;
    if id :| ParseTask(TaskKey(planKey, taskKey)) == Some(TaskRef(plan, id, task)) {
      hide Trim, ParsePlan;
      TaskPartsValid(TaskKey(planKey, taskKey));
    }
  }

  lemma TaskPartsValid(raw: string)
    requires ParseTask(raw).Some?
    ensures ParsePlan(ParseTask(raw).value.planKey).Some? && ParseTask(raw).value.taskKey != ""
  {
    hide Trim, ParsePlan, Index;
  }

  lemma TaskKeyParts(planKey: string, taskKey: string)
    requires '#' !in planKey && planKey != "" && !IsSpace(planKey[0]) && Trimmed(taskKey) && taskKey != ""
    ensures var remainder := planKey + "#" + taskKey;
            var key := "task:" + planKey + "#" + taskKey;
            && HasPrefix(key, "task:") && key[5..] == remainder && Trim(key) == key && Trim(remainder) == remainder
            && Index(remainder, '#') == |planKey|
            && remainder[..|planKey|] == planKey && remainder[|planKey| + 1..] == taskKey
  {
    hide Index, Trim, Trimmed;
    var remainder := planKey + "#" + taskKey;
    var key := "task:" + planKey + "#" + taskKey;
    assert key == "task:" + remainder;
    EndsTrimmed("task:" + planKey + "#", taskKey);
    EndsTrimmed(planKey + "#", taskKey);
    IndexAt(planKey, '#', taskKey);
  }

  lemma EndsTrimmed(front: string, back: string)
    requires front != "" && !IsSpace(front[0]) && back != "" && Trimmed(back)
    ensures Trim(front + back) == front + back
  {
    TrimShape(front + back);
    assert (front + back)[|front + back| - 1] == back[|back| - 1];
  }

  lemma IndexAt(front: string, c: char, back: string)
    requires c !in front
    ensures Index(front + [c] + back, c) == |front|
  {
    var s := front + [c] + back;
    assert s[|front|] == c && forall j :: 0 <= j < |front| ==> s[j] == front[j];
  }

  /** Whatever parses prints, within the length limit, to a normal form that parses to the same parts. */
  lemma TaskNormalForm(raw: string)
    requires ParseTask(raw).Some?
    ensures var r := ParseTask(raw).value;
            && ParsePlan(r.planKey) == Some(r.receiptId)
            && (TaskKey(r.planKey, r.taskKey) != "" ==> ParseTask(TaskKey(r.planKey, r.taskKey)) == Some(r))
            && (TaskKey(r.planKey, r.taskKey) == "" <==> ByteLength("task:" + r.planKey + "#" + r.taskKey) > MAX_KEY)
  {
    var r := ParseTask(raw).value;
    var remainder := Trim(Trim(raw)[5..]);
    var separator := Index(remainder, '#');
    TrimShape(remainder[..separator]);
    TrimShape(remainder[separator + 1..]);
    TrimShape(r.planKey);
    TrimShape(r.taskKey);
    PlanKeyHasNoHash(r.planKey);
    if ByteLength("task:" + r.planKey + "#" + r.taskKey) <= MAX_KEY {
      TaskRoundTrip(r.planKey, r.taskKey);
    }
  }

  // ---------------------------------------------------------------- runs

  /** strconv.ParseInt(s, 10, 64) */
  function ParseInt(s: string): Option<int> {
    var signed := s != [] && (s[0] == '+' || s[0] == '-');
    var digits := if signed then s[1..] else s;
    if digits == [] || !AllDigits(digits) then None
    else
      var n: int := DigitsValue(digits);
      if s[0] == '-' then if n > MAX_INT64 + 1 then None else Some(-n)
      else if n > MAX_INT64 then None else Some(n)
  }

  function ParseRun(raw: string): Option<nat> {
    var key := Trim(raw);
    if !HasPrefix(key, "run:") then None
    else
      var n := ParseInt(Trim(key[4..]));
      if n.None? || n.value <= 0 then None else Some(n.value)
  }

  function RunKey(runId: int): string {
    if runId <= 0 then "" else Limited("run:" + Itoa(runId))
  }

  lemma {:induction false} ItoaLength(n: nat, k: nat)
    requires n < Power10(k) && k > 0
    ensures |Itoa(n)| <= k
  {
    if n >= 10 {
      ItoaLength(n / 10, k - 1);
    }
  }

  function Power10(k: nat): nat {
    if k == 0 then 1 else 10 * Power10(k - 1)
  }

  lemma MaxIntDigits()
    ensures MAX_INT64 < Power10(19)
  {
    assert Power10(5) == 100000;
    assert Power10(10) == 10000000000;
    assert Power10(15) == 1000000000000000;
    assert Power10(19) == 10000000000000000000;
  }

  /** Every stored run id is printed and read back. */
  lemma RunRoundTrip(runId: nat)
    requires 0 < runId <= MAX_INT64
    ensures ParseRun(RunKey(runId)) == Some(runId)
  {
    hide Itoa, ByteLength, Power10, TrimLeft, TrimRight, DigitsValue;
    var digits := Itoa(runId);
    ItoaReads(runId);
    MaxIntDigits();
    ItoaLength(runId, 19);
    AsciiLength("run:" + digits);
    TrimShape(digits);
    EndsTrimmed("run:", digits);
    assert ("run:" + digits)[4..] == digits;
    assert HasPrefix("run:" + digits, "run:");
  }

  // ---------------------------------------------------------------- dispatch

  datatype Target = ToTask(task: TaskRef) | ToPlan(receiptId: string) | ToReceipt(id: string) | ToRun(run: nat) | ToPointer

  /** The order in which Fetch tries the parsers. */
  function Dispatch(key: string): Target {
    if ParseTask(key).Some? then ToTask(ParseTask(key).value)
    else if ParsePlan(key).Some? then ToPlan(ParsePlan(key).value)
    else if ParseReceipt(key).Some? then ToReceipt(ParseReceipt(key).value)
    else if ParseRun(key).Some? then ToRun(ParseRun(key).value)
    else ToPointer
  }

  /** At most one parser accepts a key, so the order of the attempts does not matter. */
  lemma DispatchUnambiguous(key: string)
    ensures ParseTask(key).Some? ==> ParsePlan(key).None? && ParseReceipt(key).None? && ParseRun(key).None?
    ensures ParsePlan(key).Some? ==> ParseReceipt(key).None? && ParseRun(key).None?
    ensures ParseReceipt(key).Some? ==> ParseRun(key).None?
  {
    hide Trim, RequestId, Index, ParseInt;
    var k := Trim(key);
    if HasPrefix(k, "task:") { assert k[0] == "task:"[0]; }
    if HasPrefix(k, "plan:") { assert k[0] == "plan:"[0]; }
    if HasPrefix(k, "receipt:") { assert k[1] == "receipt:"[1]; }
    if HasPrefix(k, "run:") { assert k[1] == "run:"[1]; assert k[0] == "run:"[0]; }
  }

  ghost predicate SpelledId(id: string) {
    8 <= |id| <= 128
    && forall i :: 0 <= i < |id| ==>
         || 'A' <= id[i] <= 'Z' || 'a' <= id[i] <= 'z' || '0' <= id[i] <= '9'
         || id[i] == '.' || id[i] == '_' || id[i] == ':' || id[i] == '-'
  }

  /** Which keys parse as a plan or a receipt: the prefix and an id of 8 to 128 characters, spaces around either aside. */
  lemma IdKeysExactly(raw: string, id: string)
    ensures ParsePlan(raw) == Some(id) <==> SpelledId(id) && exists rest: string :: Trim(raw) == "plan:" + rest && Trim(rest) == id
    ensures ParseReceipt(raw) == Some(id) <==> SpelledId(id) && exists rest: string :: Trim(raw) == "receipt:" + rest && Trim(rest) == id
  {
    hide Trim;
    PrefixedExactly(raw, "plan:", id);
    PrefixedExactly(raw, "receipt:", id);
  }

  lemma PrefixedExactly(raw: string, prefix: string, id: string)
    ensures ParsePrefixed(raw, prefix) == Some(id) <==>
              SpelledId(id) && exists rest: string :: Trim(raw) == prefix + rest && Trim(rest) == id
  {
    hide Trim;
    var key := Trim(raw);
    if rest: string :| key == prefix + rest && Trim(rest) == id {
      assert key[..|prefix|] == prefix && key[|prefix|..] == rest;
    }
    if HasPrefix(key, prefix) {
      assert key == prefix + key[|prefix|..];
    }
    assert RequestId(id) <==> SpelledId(id) by { SpelledExactly(id); }
  }

  lemma SpelledExactly(id: string)
    ensures RequestId(id) <==> SpelledId(id)
  {
  }

  /** What is printed for an id and for a run, within the length limit. */
  lemma PrintedKeys(id: string, run: nat)
    ensures SpelledId(id) ==> ReceiptKey(id) == "receipt:" + id
    ensures 0 < run <= MAX_INT64 ==> RunKey(run) == "run:" + Itoa(run)
  {
    hide Itoa, ByteLength, Trim, Power10;
    SpelledExactly(id);
    if SpelledId(id) {
      RequestIdTrimmed(id);
      AsciiLength("receipt:" + id);
    }
    if 0 < run <= MAX_INT64 {
      MaxIntDigits();
      ItoaLength(run, 19);
      AsciiLength("run:" + Itoa(run));
    }
  }

  /** Nothing is printed for blank parts and for what is no run. */
  lemma NothingPrinted(id: string, plan: string, task: string, run: int)
    ensures Trim(id) == "" ==> ReceiptKey(id) == ""
    ensures Trim(plan) == "" || Trim(task) == "" ==> TaskKey(plan, task) == ""
    ensures run <= 0 ==> RunKey(run) == ""
  {
    hide Trim, ByteLength, Itoa;
  }

  /** raw spells the task: its plan key up to the first '#', its task key after it, spaces around the parts aside. */
  ghost predicate SpelledTask(raw: string, ref: TaskRef, rest: string, plan: string, task: string) {
    && Trim(raw) == "task:" + rest && Trim(rest) == plan + "#" + task && '#' !in plan
    && Trim(plan) == ref.planKey && Trim(task) == ref.taskKey != ""
  }

  /** Which keys parse as a task. */
  lemma TaskKeysExactly(raw: string, ref: TaskRef)
    ensures ParseTask(raw) == Some(ref) <==>
              ParsePlan(ref.planKey) == Some(ref.receiptId) && exists rest, plan, task :: SpelledTask(raw, ref, rest, plan, task)
  {
    hide Trim, ParsePlan, RequestId;
    var key := Trim(raw);
    if ParseTask(raw) == Some(ref) {
      var rest := key[5..];
      var remainder := Trim(rest);
      var separator := Index(remainder, '#');
      assert key == "task:" + rest;
      assert remainder == remainder[..separator] + "#" + remainder[separator + 1..];
      assert SpelledTask(raw, ref, rest, remainder[..separator], remainder[separator + 1..]);
    }
    if rest: string, plan: string, task: string :| SpelledTask(raw, ref, rest, plan, task) && ParsePlan(ref.planKey) == Some(ref.receiptId) {
      SpelledParses(raw, ref, rest, plan, task);
    }
  }

  lemma SpelledParses(raw: string, ref: TaskRef, rest: string, plan: string, task: string)
    requires SpelledTask(raw, ref, rest, plan, task) && ParsePlan(ref.planKey) == Some(ref.receiptId)
    ensures ParseTask(raw) == Some(ref)
  {
    hide Trim, ParsePlan, Index;
    var remainder := plan + "#" + task;
    assert ("task:" + rest)[..5] == "task:";
    assert ("task:" + rest)[5..] == rest;
    assert remainder[|plan|] == '#' && remainder[..|plan|] == plan && remainder[|plan| + 1..] == task;
    assert Index(remainder, '#') == |plan|;
    NoBlankParts(plan, task);
  }

  lemma NoBlankParts(plan: string, task: string)
    ensures ParsePlan(Trim(plan)).Some? ==> plan != ""
    ensures Trim(task) != "" ==> task != ""
  {
  }

  /** Which keys parse as a run: a decimal number from 1 to the largest 64-bit integer, perhaps with a plus sign. */
  lemma RunKeysExactly(raw: string, run: nat)
    ensures ParseRun(raw) == Some(run) <==>
              0 < run <= 0x7FFF_FFFF_FFFF_FFFF && exists rest, digits :: SpelledRun(raw, run, rest, digits)
  {
    hide Trim, DigitsValue;
    var key := Trim(raw);
    if ParseRun(raw) == Some(run) {
      var rest := key[4..];
      var text := Trim(rest);
      assert key == "run:" + rest;
      var digits := if text[0] == '+' then text[1..] else text;
      assert text == digits || text == "+" + digits;
      assert SpelledRun(raw, run, rest, digits);
    }
    if rest: string, digits: string :| SpelledRun(raw, run, rest, digits) && 0 < run <= 0x7FFF_FFFF_FFFF_FFFF {
      assert ("run:" + rest)[..4] == "run:" && ("run:" + rest)[4..] == rest;
      assert ("+" + digits)[1..] == digits;
      assert IsDigit(digits[0]);
    }
  }

  ghost predicate SpelledRun(raw: string, run: nat, rest: string, digits: string) {
    && Trim(raw) == "run:" + rest && (Trim(rest) == digits || Trim(rest) == "+" + digits)
    && digits != "" && (forall i :: 0 <= i < |digits| ==> '0' <= digits[i] <= '9')
    && AllDigits(digits) && DigitsValue(digits) == run
  }

  /** Which lookup a key reaches. */
  lemma DispatchReaches(id: string, task: string, run: nat, other: string)
    ensures SpelledId(id) ==> Dispatch("plan:" + id) == ToPlan(id) && Dispatch("receipt:" + id) == ToReceipt(id)
    ensures SpelledId(id) && Trimmed(task) && task != "" && ByteLength("task:" + ("plan:" + id) + "#" + task) <= MAX_KEY ==>
              Dispatch("task:" + ("plan:" + id) + "#" + task) == ToTask(TaskRef("plan:" + id, id, task))
    ensures 0 < run <= MAX_INT64 ==> Dispatch("run:" + Itoa(run)) == ToRun(run)
    ensures OtherKey(other) ==> Dispatch(other) == ToPointer
  {
    hide ParseTask, ParsePlan, ParseReceipt, ParseRun, Itoa, ByteLength, Trim, Trimmed;
    SpelledExactly(id);
    PrintedKeys(id, run);
    if SpelledId(id) {
      ReceiptRoundTrip(id);
      DispatchUnambiguous("plan:" + id);
      DispatchUnambiguous("receipt:" + id);
      if Trimmed(task) && task != "" && ByteLength("task:" + ("plan:" + id) + "#" + task) <= MAX_KEY {
        PlanIsTrimmed(id);
        TaskRoundTrip("plan:" + id, task);
        TaskPrinted("plan:" + id, task);
      }
    }
    if 0 < run <= MAX_INT64 {
      RunRoundTrip(run);
      DispatchUnambiguous("run:" + Itoa(run));
    }
    if OtherKey(other) {
      OtherKeys(other);
    }
  }

  /** The key starts with none of the four prefixes. */
  predicate OtherKey(key: string) {
    var k := Trim(key);
    !HasPrefix(k, "task:") && !HasPrefix(k, "plan:") && !HasPrefix(k, "receipt:") && !HasPrefix(k, "run:")
  }

  lemma PlanIsTrimmed(id: string)
    requires SpelledId(id)
    ensures Trimmed("plan:" + id)
  {
    assert ("plan:" + id)[0] == 'p' && ("plan:" + id)[|"plan:" + id| - 1] == id[|id| - 1];
  }

  lemma TaskPrinted(plan: string, task: string)
    requires Trimmed(plan) && Trimmed(task) && plan != "" && task != "" && ByteLength("task:" + plan + "#" + task) <= MAX_KEY
    ensures TaskKey(plan, task) == "task:" + plan + "#" + task
  {
    hide ByteLength;
    TrimShape(plan);
    TrimShape(task);
  }

  lemma OtherKeys(other: string)
    requires OtherKey(other)
    ensures Dispatch(other) == ToPointer
  {
    hide Trim, Index, RequestId, ParseInt;
  }

  datatype Item = Item(key: string, version: string)

  /** What a store lookup returns for a key that is dispatched to it. */
  datatype Lookup = Lookup(items: map<Target, string>, pointers: map<string, string>)

  function Find(lookup: Lookup, key: string): Option<string> {
    var target := Dispatch(key);
    if target == ToPointer then if key in lookup.pointers then Some(lookup.pointers[key]) else None
    else if target in lookup.items then Some(lookup.items[target]) else None
  }

  /** A key is looked up where it is dispatched to, and under its own text when it is a pointer's. */
  lemma FindExactly(lookup: Lookup, key: string, version: string)
    ensures Find(lookup, key) == Some(version) <==>
              || (Dispatch(key) == ToPointer && key in lookup.pointers && lookup.pointers[key] == version)
              || (Dispatch(key) != ToPointer && Dispatch(key) in lookup.items && lookup.items[Dispatch(key)] == version)
  {
    hide Dispatch;
  }

  function FoundKeys(items: seq<Item>): seq<string> {
    seq(|items|, i requires 0 <= i < |items| => items[i].key)
  }

  /** The keys for which Find yields something (found) or nothing (!found), in order. */
  function Select(lookup: Lookup, keys: seq<string>, found: bool): seq<string> {
    if keys == [] then []
    else
      var rest := Select(lookup, keys[..|keys| - 1], found);
      var key := keys[|keys| - 1];
      if Find(lookup, key).Some? == found then rest + [key] else rest
  }

  /** What a selection is: of one key that key or nothing, of two lists in a row the two selections in a row. */
  lemma {:induction false} SelectExactly(lookup: Lookup, a: seq<string>, key: string, b: seq<string>, found: bool)
    ensures Select(lookup, [], found) == []
    ensures Select(lookup, [key], found) == if Find(lookup, key).Some? == found then [key] else []
    ensures Select(lookup, a + b, found) == Select(lookup, a, found) + Select(lookup, b, found)
  {
    hide Find;
    assert [key][..0] == [];
    if b == [] {
      assert a + b == a;
    } else {
      var n := |b| - 1;
      SelectExactly(lookup, a, key, b[..n], found);
      assert (a + b)[..|a + b| - 1] == a + b[..n];
    }
  }

  /** The partition loop of Fetch: every key is either found or reported missing, in order. */
  method Fetch(lookup: Lookup, keys: seq<string>, expected: map<string, string>)
    returns (items: seq<Item>, notFound: seq<string>, mismatches: seq<string>)
    ensures FoundKeys(items) == Select(lookup, keys, true) && notFound == Select(lookup, keys, false)
    ensures |items| + |notFound| == |keys|
    ensures forall i :: 0 <= i < |items| ==> Find(lookup, items[i].key) == Some(items[i].version)
    ensures forall k :: k in mismatches <==>
              k in keys && Find(lookup, k).Some? && k in expected && Trim(expected[k]) != ""
              && Trim(expected[k]) != Find(lookup, k).value
  {
    hide Find;
    items, notFound, mismatches := [], [], [];
    for i := 0 to |keys|
      invariant FoundKeys(items) == Select(lookup, keys[..i], true) && notFound == Select(lookup, keys[..i], false)
      invariant |items| + |notFound| == i
      invariant forall j :: 0 <= j < |items| ==> Find(lookup, items[j].key) == Some(items[j].version)
      invariant forall k :: k in mismatches <==>
                  k in keys[..i] && Find(lookup, k).Some? && k in expected && Trim(expected[k]) != ""
                  && Trim(expected[k]) != Find(lookup, k).value
    {
      var key := keys[i];
      assert keys[..i + 1][..i] == keys[..i] && keys[..i + 1] == keys[..i] + [key];
      var found := Find(lookup, key);
      if found.None? {
        notFound := notFound + [key];
        continue;
      }
      items := items + [Item(key, found.value)];
      var expectedVersion := if key in expected then Trim(expected[key]) else "";
      if expectedVersion != "" && expectedVersion != found.value {
        mismatches := mismatches + [key];
      }
    }
    assert keys[..|keys|] == keys;
  }
}
