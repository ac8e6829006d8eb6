/**
 Running init templates again when operations share a target (internal/bootstrap/templates.go,
 lines 298-565).  A run acts on each path by itself; on one path it acts on the content by itself,
 and contents that no operation lists as pristine stay.  So whether every project settles is
 decided by finitely many contents of each target.
 */
module Reruns {
  import opened Wrappers
  import opened JsonMerge
  import opened Templates

  // ---------------------------------------------------------------- a run, path by path

  /** An operation that cannot fail: its asset is there, its pristine ids are known, its fragment is JSON. */
  ghost predicate SoundOp(env: Env, op: Operation) {
    && op.rendered.Some? && (forall id :: id in op.pristine ==> id in env.pristine)
    && (op.kind == MergeJson ==> env.codec.decode(op.rendered.value).Some?)
  }

  ghost predicate Sound(env: Env, ops: seq<Operation>) {
    forall i :: 0 <= i < |ops| ==> SoundOp(env, ops[i])
  }

  lemma NeverFails(env: Env, op: Operation, e: Option<Entry>)
    requires SoundOp(env, op)
    ensures Apply(env, op, e).1 != Failed
  {
    hide Merge;
    if e.Some? {
      MatchExactly(env, e.value.bytes, op.pristine);
    }
  }

  /** The operations on one path, in order. */
  function On(ops: seq<Operation>, p: Path): seq<Operation> {
    if ops == [] then []
    else
      var rest := On(ops[..|ops| - 1], p);
      var last := ops[|ops| - 1];
      if last.target == p then rest + [last] else rest
  }

  /** A path's entry after operations on it. */
  function EntryAfter(env: Env, ops: seq<Operation>, e: Option<Entry>): Option<Entry> {
    if ops == [] then e else After(env, ops[|ops| - 1], EntryAfter(env, ops[..|ops| - 1], e))
  }

  lemma {:induction false} RunByPath(env: Env, ops: seq<Operation>, files: Files, p: Path)
    requires Sound(env, ops)
    ensures !ApplyAll(env, ops, files).failed
    ensures At(ApplyAll(env, ops, files).files, p) == EntryAfter(env, On(ops, p), At(files, p))
  {
    hide Apply, SoundOp;
    if ops != [] {
      var front, op := ops[..|ops| - 1], ops[|ops| - 1];
      RunByPath(env, front, files, p);
      var before := ApplyAll(env, front, files).files;
      NeverFails(env, op, At(before, op.target));
      KeepsTarget(env, op, At(before, op.target));
      PutAt(before, op.target, After(env, op, At(before, op.target)));
      if op.target == p {
        AppendOp(env, On(front, p), op, At(files, p));
      }
    }
  }

  lemma AppendOp(env: Env, ops: seq<Operation>, op: Operation, e: Option<Entry>)
    ensures EntryAfter(env, ops + [op], e) == After(env, op, EntryAfter(env, ops, e))
  {
    assert (ops + [op])[..|ops|] == ops;
  }

  // ---------------------------------------------------------------- contents

  function BytesOf(e: Option<Entry>): Option<Bytes> {
    if e.Some? then Some(e.value.bytes) else None
  }

  function WithMode(c: Option<Bytes>, mode: nat): Option<Entry> {
    if c.Some? then Some(Entry(c.value, mode)) else None
  }

  /** What an operation makes of a content, whatever the mode. */
  function Act(env: Env, op: Operation, c: Option<Bytes>): Option<Bytes> {
    BytesOf(After(env, op, WithMode(c, 0)))
  }

  function ContentAfter(env: Env, ops: seq<Operation>, c: Option<Bytes>): Option<Bytes> {
    if ops == [] then c else Act(env, ops[|ops| - 1], ContentAfter(env, ops[..|ops| - 1], c))
  }

  lemma ActOnBytes(env: Env, op: Operation, e: Option<Entry>)
    ensures BytesOf(After(env, op, e)) == Act(env, op, BytesOf(e))
  {
    hide Merge, MatchesPristine;
  }

  lemma {:induction false} ContentOfEntry(env: Env, ops: seq<Operation>, e: Option<Entry>)
    ensures BytesOf(EntryAfter(env, ops, e)) == ContentAfter(env, ops, BytesOf(e))
  {
    hide Act, Apply;
    if ops != [] {
      ContentOfEntry(env, ops[..|ops| - 1], e);
      ActOnBytes(env, ops[|ops| - 1], EntryAfter(env, ops[..|ops| - 1], e));
    }
  }

  /** On two entries of one content an operation sets one mode for both or leaves both modes alone. */
  lemma ModeStep(env: Env, op: Operation, a: Entry, b: Entry)
    requires a.bytes == b.bytes
    ensures var x, y := After(env, op, Some(a)), After(env, op, Some(b));
            && x.Some? && y.Some? && x.value.bytes == y.value.bytes
            && (x == y || (x.value.mode == a.mode && y.value.mode == b.mode))
  {
    hide Merge, MatchesPristine;
  }

  lemma {:induction false} ModesOfRun(env: Env, ops: seq<Operation>, a: Entry, b: Entry)
    requires a.bytes == b.bytes
    ensures var x, y := EntryAfter(env, ops, Some(a)), EntryAfter(env, ops, Some(b));
            && x.Some? && y.Some? && x.value.bytes == y.value.bytes
            && (x == y || (x.value.mode == a.mode && y.value.mode == b.mode))
  {
    hide Apply;
    if ops != [] {
      var front := ops[..|ops| - 1];
      ModesOfRun(env, front, a, b);
      ModeStep(env, ops[|ops| - 1], EntryAfter(env, front, Some(a)).value, EntryAfter(env, front, Some(b)).value);
    }
  }

  // ---------------------------------------------------------------- when every project settles

  /** Whatever a file holds, a second run of these operations on it leaves its content alone. */
  ghost predicate ContentSettles(env: Env, ops: seq<Operation>) {
    forall c :: SettledAt(env, ops, c)
  }

  ghost predicate SettledAt(env: Env, ops: seq<Operation>, c: Option<Bytes>) {
    ContentAfter(env, ops, ContentAfter(env, ops, c)) == ContentAfter(env, ops, c)
  }

  ghost predicate SettlesEverywhere(env: Env, ops: seq<Operation>) {
    forall files :: Settled(env, ops, files)
  }

  /** Every project is settled, content after one run and all after two, exactly when every path's content settles. */
  lemma SettlesByPath(env: Env, ops: seq<Operation>)
    requires Sound(env, ops)
    ensures SettlesEverywhere(env, ops) <==> AllSettle(env, ops)
  {
    hide ApplyAll, ContentAfter, Sound, Settled, ContentSettles, SettlesEverywhere;
    if SettlesEverywhere(env, ops) {
      forall p
        ensures ContentSettles(env, On(ops, p))
      {
        PathSettles(env, ops, p);
      }
    }
    if AllSettle(env, ops) {
      ProjectsSettle(env, ops);
    }
  }

  ghost predicate AllSettle(env: Env, ops: seq<Operation>) {
    forall p :: ContentSettles(env, On(ops, p))
  }

  lemma PathSettles(env: Env, ops: seq<Operation>, p: Path)
    requires Sound(env, ops) && SettlesEverywhere(env, ops)
    ensures ContentSettles(env, On(ops, p))
  {
    hide SettlesEverywhere, Sound, ContentAfter;
    forall c
      ensures SettledAt(env, On(ops, p), c)
    {
      PathOfSettled(env, ops, p, c);
    }
  }

  lemma ProjectsSettle(env: Env, ops: seq<Operation>)
    requires Sound(env, ops) && AllSettle(env, ops)
    ensures SettlesEverywhere(env, ops)
  {
    hide Sound, Settled, AllSettle;
    forall files
      ensures Settled(env, ops, files)
    {
      SettledByContent(env, ops, files);
    }
  }

  lemma PathOfSettled(env: Env, ops: seq<Operation>, p: Path, c: Option<Bytes>)
    requires Sound(env, ops) && SettlesEverywhere(env, ops)
    ensures SettledAt(env, On(ops, p), c)
  {
    hide ApplyAll, EntryAfter, ContentAfter, Sound;
    var files: Files := if c.Some? then map[p := Entry(c.value, 0)] else map[];
    var first := ApplyAll(env, ops, files).files;
    assert Settled(env, ops, files);
    RunByPath(env, ops, files, p);
    RunByPath(env, ops, first, p);
    ContentOfEntry(env, On(ops, p), At(files, p));
    ContentOfEntry(env, On(ops, p), At(first, p));
  }

  lemma SettledByContent(env: Env, ops: seq<Operation>, files: Files)
    requires Sound(env, ops) && AllSettle(env, ops)
    ensures Settled(env, ops, files)
  {
    hide ApplyAll, EntryAfter, ContentAfter, Sound;
    var a := ApplyAll(env, ops, files).files;
    var b := ApplyAll(env, ops, a).files;
    forall p
      ensures SameBytes(At(a, p), At(b, p)) && At(ApplyAll(env, ops, b).files, p) == At(b, p)
    {
      assert ContentSettles(env, On(ops, p)) && SettledAt(env, On(ops, p), BytesOf(At(files, p)));
      RunByPath(env, ops, files, p);
      RunByPath(env, ops, a, p);
      RunByPath(env, ops, b, p);
      ContentOfEntry(env, On(ops, p), At(files, p));
      ContentOfEntry(env, On(ops, p), At(a, p));
      if At(a, p).Some? {
        ModesOfRun(env, On(ops, p), At(a, p).value, At(b, p).value);
      }
    }
    RunByPath(env, ops, files, "");
    RunByPath(env, ops, a, "");
    RunByPath(env, ops, b, "");
  }

  // ---------------------------------------------------------------- replacements: a finite check

  ghost predicate NoMerge(ops: seq<Operation>) {
    forall i :: 0 <= i < |ops| ==> ops[i].kind != MergeJson
  }

  /** The contents that an operation lists as pristine. */
  function Listing(env: Env, op: Operation): set<Bytes> {
    set id | id in op.pristine && id in env.pristine :: env.pristine[id]
  }

  /** Absent, and every listed pristine content. */
  function Critical(env: Env, ops: seq<Operation>): set<Option<Bytes>> {
    if ops == [] then {None}
    else Critical(env, ops[..|ops| - 1]) + set bytes | bytes in Listing(env, ops[|ops| - 1]) :: Some(bytes)
  }

  lemma ReplacementAct(env: Env, op: Operation, bytes: Bytes)
    requires SoundOp(env, op) && op.kind != MergeJson
    ensures Act(env, op, Some(bytes))
            == if op.kind != CreateIfMissing && bytes in Listing(env, op) then op.rendered else Some(bytes)
  {
    MatchExactly(env, bytes, op.pristine);
    if i :| 0 <= i < |op.pristine| && op.pristine[i] in env.pristine && env.pristine[op.pristine[i]] == bytes {
      assert op.pristine[i] in op.pristine;
    }
    if bytes in Listing(env, op) {
      var id :| id in op.pristine && id in env.pristine && env.pristine[id] == bytes;
      var i :| 0 <= i < |op.pristine| && op.pristine[i] == id;
    }
  }

  lemma {:induction false} OthersStay(env: Env, ops: seq<Operation>, c: Option<Bytes>)
    requires Sound(env, ops) && NoMerge(ops) && c !in Critical(env, ops)
    ensures ContentAfter(env, ops, c) == c
  {
    hide Act, SoundOp, Listing;
    if ops == [] {
    } else {
      var n := |ops| - 1;
      OthersStay(env, ops[..n], c);
      NoneCritical(env, ops);
      ReplacementAct(env, ops[n], c.value);
    }
  }

  lemma {:induction false} NoneCritical(env: Env, ops: seq<Operation>)
    ensures None in Critical(env, ops)
  {
    hide Listing;
    if ops != [] {
      NoneCritical(env, ops[..|ops| - 1]);
    }
  }

  /** Creations and replacements on one path settle exactly when absence and the listed pristine contents do. */
  lemma ReplacementsSettleExactly(env: Env, ops: seq<Operation>)
    requires Sound(env, ops) && NoMerge(ops)
    ensures ContentSettles(env, ops) <==> forall c :: c in Critical(env, ops) ==> SettledAt(env, ops, c)
  {
    hide ContentAfter, Critical, Sound, NoMerge;
    if forall c :: c in Critical(env, ops) ==> SettledAt(env, ops, c) {
      forall c
        ensures SettledAt(env, ops, c)
      {
        if c !in Critical(env, ops) {
          OthersStay(env, ops, c);
        }
      }
    }
  }

  // ---------------------------------------------------------------- additions always settle

  ghost predicate Additive(ops: seq<Operation>) {
    forall i :: 0 <= i < |ops| ==> OnlyAdds(ops[i])
  }

  ghost predicate Fixes(env: Env, op: Operation, c: Option<Bytes>) {
    Act(env, op, c) == c
  }

  /** An operation fixes what it has made. */
  lemma ActTwice(env: Env, op: Operation, c: Option<Bytes>)
    requires RoundTrips(env.codec)
    ensures Fixes(env, op, Act(env, op, c))
  {
    hide Apply, RoundTrips;
    OperationSettles(env, op, WithMode(c, 0));
    ActOnBytes(env, op, After(env, op, WithMode(c, 0)));
  }

  /** What an addition fixes it still fixes after another addition. */
  lemma AdditionKeepsFixed(env: Env, op: Operation, other: Operation, c: Option<Bytes>)
    requires RoundTrips(env.codec) && SoundOp(env, op) && SoundOp(env, other) && OnlyAdds(op) && OnlyAdds(other)
    requires Fixes(env, op, c)
    ensures Fixes(env, op, Act(env, other, c))
  {
    hide Merge, Within, RoundTrips, MatchesPristine;
    if op.kind == MergeJson && c.Some? && other.kind == MergeJson && env.codec.decode(c.value).Some? {
      var target := env.codec.decode(c.value).value;
      var source, more := env.codec.decode(op.rendered.value).value, env.codec.decode(other.rendered.value).value;
      Rereads(env, c.value, op.rendered.value);
      Rereads(env, c.value, other.rendered.value);
      if Merge(target, source).Some? {
        MergeUnchangedExactly(target, source);
        MergeIsUpperBound(target, source);
      }
      if Merge(target, more).Some? {
        MergedStaysFixed(target, source, more);
        MergeUnchangedExactly(target, more);
      }
    }
  }

  /** A fragment that the target holds, or that conflicts with it, is held by, or conflicts with, any larger value. */
  lemma MergedStaysFixed(target: Json, source: Json, more: Json)
    requires Merge(target, more).Some?
    requires Merge(target, source).Some? ==> Within(source, target)
    ensures var larger := Merge(target, more).value.value;
            && (Merge(target, source).None? ==> Merge(larger, source).None?)
            && (Merge(target, source).Some? ==> Merge(larger, source) == Some(Merged(larger, false)))
  {
    hide Within, Merge;
    var larger := Merge(target, more).value.value;
    MergeIsUpperBound(target, more);
    if Merge(larger, source).Some? {
      MergeIsUpperBound(larger, source);
      var bound := Merge(larger, source).value.value;
      WithinTransitive(target, larger, bound);
      MergeIsLeast(target, source, bound);
    }
    if Merge(target, source).Some? {
      WithinTransitive(source, target, larger);
      WithinReflexive(larger);
      MergeIsLeast(larger, source, larger);
      MergeUnchangedExactly(larger, source);
    }
  }

  lemma {:induction false} EachFixesResult(env: Env, ops: seq<Operation>, c: Option<Bytes>)
    requires RoundTrips(env.codec) && Sound(env, ops) && Additive(ops)
    ensures forall i :: 0 <= i < |ops| ==> Fixes(env, ops[i], ContentAfter(env, ops, c))
  {
    hide Fixes, Act, RoundTrips, SoundOp, OnlyAdds;
    if ops != [] {
      var n := |ops| - 1;
      var front := ops[..n];
      EachFixesResult(env, front, c);
      ActTwice(env, ops[n], ContentAfter(env, front, c));
      forall i | 0 <= i < n
        ensures Fixes(env, ops[i], ContentAfter(env, ops, c))
      {
        assert Fixes(env, front[i], ContentAfter(env, front, c));
        AdditionKeepsFixed(env, ops[i], ops[n], ContentAfter(env, front, c));
      }
    }
  }

  lemma {:induction false} FixedByEach(env: Env, ops: seq<Operation>, c: Option<Bytes>)
    requires forall i :: 0 <= i < |ops| ==> Fixes(env, ops[i], c)
    ensures ContentAfter(env, ops, c) == c
  {
    hide Act;
    if ops != [] {
      FixedByEach(env, ops[..|ops| - 1], c);
      assert Fixes(env, ops[|ops| - 1], c);
    }
  }

  /** Merges and creations settle in any number and order on one path. */
  lemma AdditionsSettle(env: Env, ops: seq<Operation>)
    requires RoundTrips(env.codec) && Sound(env, ops) && Additive(ops)
    ensures ContentSettles(env, ops)
  {
    hide ContentAfter, Fixes, RoundTrips, Sound, Additive;
    forall c
      ensures SettledAt(env, ops, c)
    {
      EachFixesResult(env, ops, c);
      FixedByEach(env, ops, ContentAfter(env, ops, c));
    }
  }

  /** So does a single operation of any kind. */
  lemma SoleOperationSettles(env: Env, ops: seq<Operation>)
    requires RoundTrips(env.codec) && |ops| <= 1
    ensures ContentSettles(env, ops)
  {
    hide Act, RoundTrips;
    forall c
      ensures SettledAt(env, ops, c)
    {
      if |ops| == 1 {
        assert ops[..|ops| - 1] == [];
        assert ContentAfter(env, ops, c) == Act(env, ops[0], c);
        ActTwice(env, ops[0], c);
        assert ContentAfter(env, ops, Act(env, ops[0], c)) == Act(env, ops[0], Act(env, ops[0], c));
      }
    }
  }

  // ---------------------------------------------------------------- the exact condition

  /** No path is both merged into and replaced by pristine content, unless by one operation. */
  ghost predicate Separate(ops: seq<Operation>) {
    forall p :: p in Targets(ops) ==> NoMerge(On(ops, p)) || Additive(On(ops, p)) || |On(ops, p)| <= 1
  }

  /** Absence and the listed pristine contents of every replaced path settle. */
  ghost predicate CriticalSettle(env: Env, ops: seq<Operation>) {
    forall p, c :: p in Targets(ops) && NoMerge(On(ops, p)) && c in Critical(env, On(ops, p)) ==> SettledAt(env, On(ops, p), c)
  }

  lemma {:induction false} NothingOnOthers(ops: seq<Operation>, p: Path)
    ensures p !in Targets(ops) ==> On(ops, p) == []
  {
    if ops != [] {
      NothingOnOthers(ops[..|ops| - 1], p);
      TargetsFront(ops);
    }
  }

  /** Every project settles exactly when finitely many contents of the shared targets do. */
  lemma SettlesExactly(env: Env, ops: seq<Operation>)
    requires RoundTrips(env.codec) && Sound(env, ops) && Separate(ops)
    ensures SettlesEverywhere(env, ops) <==> CriticalSettle(env, ops)
  {
    hide SettlesEverywhere, Critical, ContentSettles, SettledAt, NoMerge, Additive, RoundTrips, On, Sound, Targets;
    SettlesByPath(env, ops);
    forall p
      ensures ContentSettles(env, On(ops, p)) <==> PathCritical(env, ops, p)
    {
      PathExactly(env, ops, p);
    }
    if AllSettle(env, ops) {
      forall p, c | p in Targets(ops) && NoMerge(On(ops, p)) && c in Critical(env, On(ops, p))
        ensures SettledAt(env, On(ops, p), c)
      {
        assert ContentSettles(env, On(ops, p)) && PathCritical(env, ops, p);
      }
    }
  }

  ghost predicate PathCritical(env: Env, ops: seq<Operation>, p: Path) {
    p in Targets(ops) && NoMerge(On(ops, p)) ==> forall c :: c in Critical(env, On(ops, p)) ==> SettledAt(env, On(ops, p), c)
  }

  lemma PathExactly(env: Env, ops: seq<Operation>, p: Path)
    requires RoundTrips(env.codec) && Sound(env, ops) && Separate(ops)
    ensures ContentSettles(env, On(ops, p)) <==> PathCritical(env, ops, p)
  {
    hide Critical, ContentSettles, SettledAt, NoMerge, Additive, RoundTrips, On, Sound, Targets;
    SoundOn(env, ops, p);
    NothingOnOthers(ops, p);
    if |On(ops, p)| <= 1 {
      SoleOperationSettles(env, On(ops, p));
    }
    if NoMerge(On(ops, p)) {
      ReplacementsSettleExactly(env, On(ops, p));
    } else if Additive(On(ops, p)) {
      AdditionsSettle(env, On(ops, p));
    }
  }

  lemma {:induction false} SoundOn(env: Env, ops: seq<Operation>, p: Path)
    requires Sound(env, ops)
    ensures Sound(env, On(ops, p))
  {
    hide SoundOp;
    if ops != [] {
      SoundOn(env, ops[..|ops| - 1], p);
    }
  }

  // ---------------------------------------------------------------- sequences that do not settle

  function Replace(target: Path, rendered: Bytes, pristine: seq<string>): Operation {
    Operation(ReplaceIfPristine, target, Some(rendered), 0x1A4, pristine)
  }

  /** Three replacements that make one another's pristine content swap two contents with every run. */
  lemma SwapsForever(env: Env, target: Path, p: Bytes, x: Bytes, y: Bytes)
    requires p != x && p != y && x != y
    requires env.pristine == map["p" := p, "x" := x, "y" := y]
    ensures var ops := [Replace(target, p, ["x"]), Replace(target, x, ["y"]), Replace(target, y, ["p"])];
            ContentAfter(env, ops, Some(x)) == Some(y) && ContentAfter(env, ops, Some(y)) == Some(x)
  {
    hide Act, ContentAfter;
    OneListed(env, target, p, "x");
    OneListed(env, target, x, "y");
    OneListed(env, target, y, "p");
    ThreeOps(env, Replace(target, p, ["x"]), Replace(target, x, ["y"]), Replace(target, y, ["p"]), Some(x));
    ThreeOps(env, Replace(target, p, ["x"]), Replace(target, x, ["y"]), Replace(target, y, ["p"]), Some(y));
  }

  /** Two replacements that need two runs: the second makes what the first replaces. */
  lemma SettlesLate(env: Env, target: Path, a: Bytes, b: Bytes, c: Bytes)
    requires a != b && a != c && b != c
    requires env.pristine == map["b" := b, "c" := c]
    ensures var ops := [Replace(target, a, ["b"]), Replace(target, b, ["c"])];
            && ContentAfter(env, ops, Some(c)) == Some(b) && ContentAfter(env, ops, Some(b)) == Some(a)
            && ContentAfter(env, ops, Some(a)) == Some(a)
  {
    hide Act, ContentAfter;
    OneListed(env, target, a, "b");
    OneListed(env, target, b, "c");
    TwoOps(env, Replace(target, a, ["b"]), Replace(target, b, ["c"]));
  }

  lemma OneListed(env: Env, target: Path, rendered: Bytes, id: string)
    requires id in env.pristine
    ensures forall bytes :: Act(env, Replace(target, rendered, [id]), Some(bytes))
                            == if bytes == env.pristine[id] then Some(rendered) else Some(bytes)
  {
    hide Act;
    var op := Replace(target, rendered, [id]);
    assert id in op.pristine && Listing(env, op) == {env.pristine[id]};
    forall bytes
      ensures Act(env, op, Some(bytes)) == if bytes == env.pristine[id] then Some(rendered) else Some(bytes)
    {
      ReplacementAct(env, op, bytes);
    }
  }

  lemma TwoOps(env: Env, first: Operation, second: Operation)
    ensures forall c :: ContentAfter(env, [first, second], c) == Act(env, second, Act(env, first, c))
  {
    hide Act;
    forall c
      ensures ContentAfter(env, [first, second], c) == Act(env, second, Act(env, first, c))
    {
      assert [first, second][..1] == [first] && [first][..0] == [];
      assert ContentAfter(env, [first], c) == Act(env, first, c);
    }
  }

  lemma ThreeOps(env: Env, first: Operation, second: Operation, third: Operation, c: Option<Bytes>)
    ensures ContentAfter(env, [first, second, third], c) == Act(env, third, Act(env, second, Act(env, first, c)))
  {
    hide Act;
    TwoOps(env, first, second);
    assert [first, second, third][..2] == [first, second];
  }

  // ---------------------------------------------------------------- the shared targets of the catalog

  /** Replacements of the blank scaffold and nothing else. */
  ghost predicate TakeBlank(env: Env, ops: seq<Operation>, blank: Bytes) {
    forall i :: 0 <= i < |ops| ==> ops[i].kind == ReplaceIfPristine && Listing(env, ops[i]) <= {blank}
  }

  lemma {:induction false} TakersLeaveOthers(env: Env, ops: seq<Operation>, blank: Bytes, c: Option<Bytes>)
    requires Sound(env, ops) && TakeBlank(env, ops, blank) && c != Some(blank)
    ensures ContentAfter(env, ops, c) == c
  {
    hide Act, Listing, SoundOp;
    if ops != [] {
      var n := |ops| - 1;
      TakersLeaveOthers(env, ops[..n], blank, c);
      if c.Some? {
        ReplacementAct(env, ops[n], c.value);
      } else {
        AbsentStays(env, ops[n]);
      }
    }
  }

  lemma AbsentStays(env: Env, op: Operation)
    requires op.kind == ReplaceIfPristine
    ensures Act(env, op, None) == None
  {
  }

  /** Any number of them settles on one path. */
  lemma TakersSettle(env: Env, ops: seq<Operation>, blank: Bytes)
    requires Sound(env, ops) && TakeBlank(env, ops, blank)
    ensures ContentSettles(env, ops)
  {
    hide ContentAfter, Sound, TakeBlank;
    forall c
      ensures SettledAt(env, ops, c)
    {
      if c != Some(blank) {
        TakersLeaveOthers(env, ops, blank, c);
      } else if ContentAfter(env, ops, c) != c {
        TakersLeaveOthers(env, ops, blank, ContentAfter(env, ops, c));
      }
    }
  }

  /** And so they do after a replacement that takes the blank scaffold and any other contents too. */
  lemma TakeoverSettles(env: Env, first: Operation, rest: seq<Operation>, blank: Bytes)
    requires SoundOp(env, first) && first.kind == ReplaceIfPristine && blank in Listing(env, first)
    requires Sound(env, rest) && TakeBlank(env, rest, blank)
    ensures ContentSettles(env, [first] + rest)
  {
    hide ContentAfter, Sound, TakeBlank, Act, Listing;
    var ops := [first] + rest;
    forall c
      ensures SettledAt(env, ops, c)
    {
      FirstThenRest(env, first, rest, c);
      var r := ContentAfter(env, ops, c);
      FirstThenRest(env, first, rest, r);
      if c.None? {
        AbsentStays(env, first);
        TakersLeaveOthers(env, rest, blank, None);
      } else {
        ReplacementAct(env, first, c.value);
        if Act(env, first, c) != Some(blank) {
          TakersLeaveOthers(env, rest, blank, Act(env, first, c));
          ReplacementAct(env, first, r.value);
        } else {
          AfterBlank(env, first, rest, blank);
        }
      }
    }
  }

  /** Where the first replacement writes the blank scaffold itself. */
  lemma AfterBlank(env: Env, first: Operation, rest: seq<Operation>, blank: Bytes)
    requires SoundOp(env, first) && first.kind == ReplaceIfPristine && first.rendered == Some(blank)
    requires Sound(env, rest) && TakeBlank(env, rest, blank)
    ensures var r := ContentAfter(env, rest, Some(blank)); ContentAfter(env, rest, Act(env, first, r)) == r
  {
    hide ContentAfter, Sound, TakeBlank, Act, Listing;
    var r := ContentAfter(env, rest, Some(blank));
    StaysPresent(env, rest, Some(blank));
    ReplacementAct(env, first, r.value);
    if r != Some(blank) {
      TakersLeaveOthers(env, rest, blank, r);
    }
  }

  lemma {:induction false} StaysPresent(env: Env, ops: seq<Operation>, c: Option<Bytes>)
    requires c.Some?
    ensures ContentAfter(env, ops, c).Some?
  {
    hide Apply;
    if ops != [] {
      StaysPresent(env, ops[..|ops| - 1], c);
      KeepsTarget(env, ops[|ops| - 1], WithMode(ContentAfter(env, ops[..|ops| - 1], c), 0));
    }
  }

  lemma {:induction false} FirstThenRest(env: Env, first: Operation, rest: seq<Operation>, c: Option<Bytes>)
    ensures ContentAfter(env, [first] + rest, c) == ContentAfter(env, rest, Act(env, first, c))
  {
    hide Act;
    if rest == [] {
      assert [first] + rest == [first] && [first][..0] == [];
    } else {
      var n := |rest| - 1;
      FirstThenRest(env, first, rest[..n], c);
      assert ([first] + rest)[..n + 1] == [first] + rest[..n];
    }
  }

  /** The pristine ids of the catalog are known. */
  ghost predicate KnownIds(env: Env) {
    forall id :: id in RULES_IDS + TESTS_IDS ==> id in env.pristine
  }

  const RULES_IDS := ["blank_rules_v1", "starter_contract_rules_v1"]
  const TESTS_IDS := ["blank_tests_v1", "verify_generic_tests_v1", "verify_go_tests_v1",
                      "verify_python_tests_v1", "verify_rust_tests_v1", "verify_ts_tests_v1"]

  /** What the selected templates do to a shared target, in the order of their ids: the planning template first. */
  function SharedOps(target: Path, ids: seq<string>, planned: Option<Bytes>, others: seq<Bytes>): seq<Operation>
    requires ids != []
  {
    (if planned.Some? then [Replace(target, planned.value, ids)] else [])
    + seq(|others|, i requires 0 <= i < |others| => Replace(target, others[i], ids[..1]))
  }

  /** A rules or tests file settles under any selection of the templates that share it. */
  lemma SharedOpsSettle(env: Env, target: Path, ids: seq<string>, planned: Option<Bytes>, others: seq<Bytes>)
    requires ids != [] && forall id :: id in ids ==> id in env.pristine
    ensures Sound(env, SharedOps(target, ids, planned, others)) && ContentSettles(env, SharedOps(target, ids, planned, others))
  {
    hide ContentSettles;
    var rest := seq(|others|, i requires 0 <= i < |others| => Replace(target, others[i], ids[..1]));
    var blank := env.pristine[ids[0]];
    assert ids[..1][0] in ids && forall id :: id in ids[..1] ==> id == ids[0];
    if planned.Some? {
      TakeoverSettles(env, Replace(target, planned.value, ids), rest, blank);
    } else {
      assert SharedOps(target, ids, planned, others) == rest;
      TakersSettle(env, rest, blank);
    }
  }

  /** Every path is the target of one operation, of additions only, or shared as the catalog's files are. */
  ghost predicate LikeCatalog(ops: seq<Operation>) {
    forall p :: |On(ops, p)| <= 1 || Additive(On(ops, p)) || SharedAs(ops, p, RULES_IDS) || SharedAs(ops, p, TESTS_IDS)
  }

  ghost predicate SharedAs(ops: seq<Operation>, p: Path, ids: seq<string>)
    requires ids != []
  {
    exists planned, others :: On(ops, p) == SharedOps(p, ids, planned, others)
  }

  /** Such a sequence is settled in every project, content after one run and modes after two. */
  lemma CatalogSettles(env: Env, ops: seq<Operation>, files: Files)
    requires RoundTrips(env.codec) && Sound(env, ops) && KnownIds(env) && LikeCatalog(ops)
    ensures Settled(env, ops, files)
  {
    hide RoundTrips, On, Settled, ContentSettles, SharedOps, Additive;
    forall p
      ensures ContentSettles(env, On(ops, p))
    {
      SoundOn(env, ops, p);
      if |On(ops, p)| <= 1 {
        SoleOperationSettles(env, On(ops, p));
      } else if Additive(On(ops, p)) {
        AdditionsSettle(env, On(ops, p));
      } else {
        var ids := if SharedAs(ops, p, RULES_IDS) then RULES_IDS else TESTS_IDS;
        var planned, others :| On(ops, p) == SharedOps(p, ids, planned, others);
        assert forall id :: id in ids ==> id in RULES_IDS + TESTS_IDS;
        SharedOpsSettle(env, p, ids, planned, others);
      }
    }
    SettledByContent(env, ops, files);
  }

  // ---------------------------------------------------------------- the catalog

  const RULES := ".awm/awm-rules.yaml"
  const ROOT_RULES := "awm-rules.yaml"
  const TESTS := ".awm/awm-tests.yaml"
  const ROOT_TESTS := "awm-tests.yaml"

  /** A template's part on the rules and tests files, and the operations on files of its own. */
  datatype Planning = Planning(rules: Bytes, tests: Bytes, own: seq<Operation>)
  datatype Starter = Starter(rules: Bytes, own: seq<Operation>)

  /**
   * The selected templates in the order of their ids: those before the planning template, that one,
   * those up to the starter contract, that one, and the tests files of the verify templates.
   */
  datatype Selection = Selection(early: seq<Operation>, planning: Option<Planning>, middle: seq<Operation>,
                                 starter: Option<Starter>, verify: seq<Bytes>)

  function PlanningOps(t: Planning): seq<Operation> {
    [Replace(RULES, t.rules, RULES_IDS), Replace(ROOT_RULES, t.rules, RULES_IDS)]
    + [Replace(TESTS, t.tests, TESTS_IDS), Replace(ROOT_TESTS, t.tests, TESTS_IDS)] + t.own
  }

  function StarterOps(t: Starter): seq<Operation> {
    t.own + [Replace(RULES, t.rules, RULES_IDS[..1]), Replace(ROOT_RULES, t.rules, RULES_IDS[..1])]
  }

  function VerifyOps(tests: seq<Bytes>): seq<Operation> {
    if tests == [] then []
    else
      var last := tests[|tests| - 1];
      VerifyOps(tests[..|tests| - 1]) + [Replace(TESTS, last, TESTS_IDS[..1]), Replace(ROOT_TESTS, last, TESTS_IDS[..1])]
  }

  function OpsOf(s: Selection): seq<Operation> {
    s.early + (if s.planning.Some? then PlanningOps(s.planning.value) else []) + s.middle
    + (if s.starter.Some? then StarterOps(s.starter.value) else []) + VerifyOps(s.verify)
  }

  function OwnOps(s: Selection): seq<Operation> {
    s.early + (if s.planning.Some? then s.planning.value.own else []) + s.middle
    + (if s.starter.Some? then s.starter.value.own else [])
  }

  predicate IsShared(p: Path) {
    p == RULES || p == ROOT_RULES || p == TESTS || p == ROOT_TESTS
  }

  /** The other files of the catalog belong to one operation each. */
  ghost predicate OwnFiles(ops: seq<Operation>) {
    DistinctTargets(ops) && forall i :: 0 <= i < |ops| ==> !IsShared(ops[i].target)
  }

  lemma {:induction false} OnConcat(a: seq<Operation>, b: seq<Operation>, p: Path)
    ensures On(a + b, p) == On(a, p) + On(b, p)
  {
    if b == [] {
      assert a + b == a;
    } else {
      OnConcat(a, b[..|b| - 1], p);
      assert (a + b)[..|a + b| - 1] == a + b[..|b| - 1];
    }
  }

  lemma OnPair(a: Operation, b: Operation, p: Path)
    ensures On([a, b], p) == (if a.target == p then [a] else []) + (if b.target == p then [b] else [])
  {
    assert [a, b][..|[a, b]| - 1] == [a] && [a][..|[a]| - 1] == [];
    assert On([], p) == [];
    assert On([a], p) == if a.target == p then [a] else [];
  }

  lemma SharedNames()
    ensures RULES != ROOT_RULES && RULES != TESTS && RULES != ROOT_TESTS
    ensures ROOT_RULES != TESTS && ROOT_RULES != ROOT_TESTS && TESTS != ROOT_TESTS
  {
    assert |RULES| == |TESTS| && RULES[9] != TESTS[9];
    assert |ROOT_RULES| == |ROOT_TESTS| && ROOT_RULES[4] != ROOT_TESTS[4];
    assert |RULES| != |ROOT_RULES|;
  }

  function Blanks(p: Path, assets: seq<Bytes>, ids: seq<string>): seq<Operation>
    requires ids != []
  {
    seq(|assets|, i requires 0 <= i < |assets| => Replace(p, assets[i], ids[..1]))
  }

  lemma {:induction false} OnVerify(tests: seq<Bytes>, p: Path)
    ensures On(VerifyOps(tests), p) == if p == TESTS || p == ROOT_TESTS then Blanks(p, tests, TESTS_IDS) else []
  {
    hide On, RULES, ROOT_RULES, TESTS, ROOT_TESTS;
    SharedNames();
    NothingOn(p);
    if tests != [] {
      var n := |tests| - 1;
      var a, b := Replace(TESTS, tests[n], TESTS_IDS[..1]), Replace(ROOT_TESTS, tests[n], TESTS_IDS[..1]);
      OnVerify(tests[..n], p);
      OnConcat(VerifyOps(tests[..n]), [a, b], p);
      OnPair(a, b, p);
      assert Blanks(p, tests, TESTS_IDS) == Blanks(p, tests[..n], TESTS_IDS) + [Replace(p, tests[n], TESTS_IDS[..1])];
    }
  }

  lemma OnPlanning(t: Planning, p: Path)
    ensures On(PlanningOps(t), p)
            == (if p == RULES || p == ROOT_RULES then [Replace(p, t.rules, RULES_IDS)]
                else if p == TESTS || p == ROOT_TESTS then [Replace(p, t.tests, TESTS_IDS)] else [])
               + On(t.own, p)
  {
    hide On, RULES, ROOT_RULES, TESTS, ROOT_TESTS;
    SharedNames();
    var rules := [Replace(RULES, t.rules, RULES_IDS), Replace(ROOT_RULES, t.rules, RULES_IDS)];
    var tests := [Replace(TESTS, t.tests, TESTS_IDS), Replace(ROOT_TESTS, t.tests, TESTS_IDS)];
    OnConcat(rules + tests, t.own, p);
    OnConcat(rules, tests, p);
    OnPair(rules[0], rules[1], p);
    OnPair(tests[0], tests[1], p);
  }

  lemma OnStarter(t: Starter, p: Path)
    ensures On(StarterOps(t), p) == On(t.own, p) + if p == RULES || p == ROOT_RULES then [Replace(p, t.rules, RULES_IDS[..1])] else []
  {
    hide On, RULES, ROOT_RULES, TESTS, ROOT_TESTS;
    SharedNames();
    var rules := [Replace(RULES, t.rules, RULES_IDS[..1]), Replace(ROOT_RULES, t.rules, RULES_IDS[..1])];
    OnConcat(t.own, rules, p);
    OnPair(rules[0], rules[1], p);
  }

  lemma OnSelection(s: Selection, p: Path)
    ensures var planning := if s.planning.Some? then PlanningOps(s.planning.value) else [];
            var starter := if s.starter.Some? then StarterOps(s.starter.value) else [];
            On(OpsOf(s), p) == On(s.early, p) + On(planning, p) + On(s.middle, p) + On(starter, p) + On(VerifyOps(s.verify), p)
  {
    hide On, PlanningOps, StarterOps, VerifyOps;
    var planning := if s.planning.Some? then PlanningOps(s.planning.value) else [];
    var starter := if s.starter.Some? then StarterOps(s.starter.value) else [];
    OnConcat(s.early, planning, p);
    OnConcat(s.early + planning, s.middle, p);
    OnConcat(s.early + planning + s.middle, starter, p);
    OnConcat(s.early + planning + s.middle + starter, VerifyOps(s.verify), p);
  }

  lemma OnOwn(s: Selection, p: Path)
    ensures On(OwnOps(s), p)
            == On(s.early, p) + On(if s.planning.Some? then s.planning.value.own else [], p) + On(s.middle, p)
               + On(if s.starter.Some? then s.starter.value.own else [], p)
  {
    hide On;
    var planning := if s.planning.Some? then s.planning.value.own else [];
    OnConcat(s.early, planning, p);
    OnConcat(s.early + planning, s.middle, p);
    OnConcat(s.early + planning + s.middle, if s.starter.Some? then s.starter.value.own else [], p);
  }

  lemma {:induction false} AtMostOne(ops: seq<Operation>, p: Path)
    requires DistinctTargets(ops)
    ensures |On(ops, p)| <= 1
  {
    if ops != [] {
      AtMostOne(ops[..|ops| - 1], p);
      TargetsFront(ops);
      NothingOnOthers(ops[..|ops| - 1], ops[|ops| - 1].target);
    }
  }

  lemma SharedNotOwn(ops: seq<Operation>, p: Path)
    requires OwnFiles(ops) && IsShared(p)
    ensures On(ops, p) == []
  {
    NothingOnOthers(ops, p);
  }

  /** What a selection does to one path has one of the settling shapes. */
  lemma SelectionPath(s: Selection, p: Path)
    requires OwnFiles(OwnOps(s))
    ensures |On(OpsOf(s), p)| <= 1 || SharedAs(OpsOf(s), p, RULES_IDS) || SharedAs(OpsOf(s), p, TESTS_IDS)
  {
    hide On, OwnOps, OpsOf, OwnFiles, SharedAs;
    if p == RULES || p == ROOT_RULES {
      RulesPath(s, p);
    } else if IsShared(p) {
      TestsPath(s, p);
    } else {
      OwnPath(s, p);
      OwnDistinct(OwnOps(s), p);
    }
  }

  lemma RulesPath(s: Selection, p: Path)
    requires OwnFiles(OwnOps(s)) && (p == RULES || p == ROOT_RULES)
    ensures SharedAs(OpsOf(s), p, RULES_IDS)
  {
    hide On, PlanningOps, StarterOps, VerifyOps, OwnOps, OpsOf, OwnFiles, RULES, ROOT_RULES, TESTS, ROOT_TESTS, RULES_IDS, TESTS_IDS;
    IdsThere();
    OnSelection(s, p);
    OnOwn(s, p);
    OnVerify(s.verify, p);
    SharedNames();
    NothingOn(p);
    SharedNotOwn(OwnOps(s), p);
    if s.planning.Some? { OnPlanning(s.planning.value, p); }
    if s.starter.Some? { OnStarter(s.starter.value, p); }
    var planned := if s.planning.Some? then Some(s.planning.value.rules) else None;
    var others := if s.starter.Some? then [s.starter.value.rules] else [];
    assert On(OpsOf(s), p) == SharedOps(p, RULES_IDS, planned, others);
  }

  lemma TestsPath(s: Selection, p: Path)
    requires OwnFiles(OwnOps(s)) && (p == TESTS || p == ROOT_TESTS)
    ensures SharedAs(OpsOf(s), p, TESTS_IDS)
  {
    hide On, PlanningOps, StarterOps, VerifyOps, OwnOps, OpsOf, OwnFiles, RULES, ROOT_RULES, TESTS, ROOT_TESTS, RULES_IDS, TESTS_IDS;
    IdsThere();
    OnSelection(s, p);
    OnOwn(s, p);
    OnVerify(s.verify, p);
    SharedNames();
    NothingOn(p);
    SharedNotOwn(OwnOps(s), p);
    if s.planning.Some? { OnPlanning(s.planning.value, p); }
    if s.starter.Some? { OnStarter(s.starter.value, p); }
    var planned := if s.planning.Some? then Some(s.planning.value.tests) else None;
    assert On(OpsOf(s), p) == SharedOps(p, TESTS_IDS, planned, s.verify);
  }

  lemma OwnPath(s: Selection, p: Path)
    requires !IsShared(p)
    ensures On(OpsOf(s), p) == On(OwnOps(s), p)
  {
    hide On, PlanningOps, StarterOps, VerifyOps, OwnOps, OpsOf, RULES, ROOT_RULES, TESTS, ROOT_TESTS;
    OnSelection(s, p);
    OnOwn(s, p);
    OnVerify(s.verify, p);
    NothingOn(p);
    if s.planning.Some? { OnPlanning(s.planning.value, p); }
    if s.starter.Some? { OnStarter(s.starter.value, p); }
  }

  lemma IdsThere()
    ensures RULES_IDS != [] && TESTS_IDS != []
  {
  }

  lemma NothingOn(p: Path)
    ensures On([], p) == []
  {
  }

  lemma OwnDistinct(ops: seq<Operation>, p: Path)
    requires OwnFiles(ops)
    ensures |On(ops, p)| <= 1
  {
    AtMostOne(ops, p);
  }

  /** Re-running any selection of the catalog's templates is settled, content after one run and modes after two. */
  lemma SelectionSettles(env: Env, s: Selection, files: Files)
    requires RoundTrips(env.codec) && Sound(env, OpsOf(s)) && KnownIds(env) && OwnFiles(OwnOps(s))
    ensures Settled(env, OpsOf(s), files)
  {
    hide RoundTrips, Sound, OwnFiles, OpsOf, OwnOps, Settled, KnownIds, SharedAs;
    forall p
      ensures |On(OpsOf(s), p)| <= 1 || SharedAs(OpsOf(s), p, RULES_IDS) || SharedAs(OpsOf(s), p, TESTS_IDS)
    {
      SelectionPath(s, p);
    }
    CatalogSettles(env, OpsOf(s), files);
  }
}
