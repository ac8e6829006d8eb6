/**
 Applying init templates to a project (internal/bootstrap/templates.go, lines 294-636).

 A project is a map from paths to files.  `Apply` gives the effect of one operation on its target
 and `ApplyAll` that of a template's operations in order, stopping at the first error; the
 class `Project` is the imperative form.  JSON text is read and written through a codec whose
 only assumed law is that reading undoes writing, for values made of what can be read.
 */
module Templates {
  import opened Wrappers
  import opened JsonMerge

  type Path = string
  type Bytes = string

  datatype Entry = Entry(bytes: Bytes, mode: nat)

  /** `number` and `text` tell which numbers and strings a decoded value can contain. */
  datatype Codec = Codec(decode: Bytes -> Option<Json>, encode: Json -> Bytes, number: string -> bool, text: string -> bool)

  /** The codec and the embedded pristine contents by id. */
  datatype Env = Env(codec: Codec, pristine: map<string, Bytes>)

  datatype Kind = CreateIfMissing | CreateOrReplaceIfPristine | ReplaceIfPristine | MergeJson

  /** `rendered` is None when the embedded asset cannot be read. */
  datatype Operation = Operation(kind: Kind, target: Path, rendered: Option<Bytes>, mode: nat, pristine: seq<string>)

  datatype Outcome = Created | Updated | Unchanged | Conflict(reason: string) | Skipped | Failed

  type Files = map<Path, Entry>

  ghost predicate RoundTrips(codec: Codec) {
    && (forall bytes :: codec.decode(bytes).Some? ==> Legal(codec.decode(bytes).value, codec.number, codec.text))
    && (forall v: Json :: Legal(v, codec.number, codec.text) ==> codec.decode(codec.encode(v)) == Some(v))
  }

  /** What was decoded, and what is merged from it, is written so that reading gives it back. */
  lemma Rereads(env: Env, a: Bytes, b: Bytes)
    requires RoundTrips(env.codec)
    ensures env.codec.decode(a).Some? ==> env.codec.decode(env.codec.encode(env.codec.decode(a).value)) == env.codec.decode(a)
    ensures env.codec.decode(a).Some? && env.codec.decode(b).Some? ==>
              var m := Merge(env.codec.decode(a).value, env.codec.decode(b).value);
              m.Some? ==> env.codec.decode(env.codec.encode(m.value.value)) == Some(m.value.value)
  {
    hide Legal, Merge;
    if env.codec.decode(a).Some? && env.codec.decode(b).Some? {
      var target, source := env.codec.decode(a).value, env.codec.decode(b).value;
      if Merge(target, source).Some? {
        MergeKeepsLegal(target, source, env.codec.number, env.codec.text);
      }
    }
  }

  function Perm(mode: nat): nat {
    mode % 512
  }

  // ---------------------------------------------------------------- one operation

  /** matchesInitPristineContent: an unknown id reached before a match is an error (None). */
  function MatchesPristine(env: Env, existing: Bytes, ids: seq<string>): Option<bool> {
    if ids == [] then Some(false)
    else if ids[0] !in env.pristine then None
    else if env.pristine[ids[0]] == existing then Some(true)
    else MatchesPristine(env, existing, ids[1..])
  }

  /** ensureInitTemplateMode */
  function FixMode(e: Entry, mode: nat): (Option<Entry>, Outcome) {
    if e.mode == Perm(mode) then (Some(e), Unchanged) else (Some(e.(mode := Perm(mode))), Updated)
  }

  function ReplacePristine(env: Env, op: Operation, e: Entry, rendered: Bytes): (Option<Entry>, Outcome) {
    if e.bytes == rendered then FixMode(e, op.mode)
    else
      match MatchesPristine(env, e.bytes, op.pristine)
      case None => (Some(e), Failed)
      case Some(false) => (Some(e), Conflict("existing file differs from init scaffold"))
      case Some(true) => (Some(e.(bytes := rendered)), Updated)
  }

  function MergeInto(env: Env, op: Operation, e: Entry, source: Json): (Option<Entry>, Outcome) {
    match env.codec.decode(e.bytes)
    case None => (Some(e), Conflict("existing file is not valid JSON"))
    case Some(target) =>
      match Merge(target, source)
      case None => (Some(e), Conflict("existing JSON structure conflicts with template"))
      case Some(m) =>
        if !m.changed then FixMode(e, op.mode)
        else (Some(e.(bytes := env.codec.encode(m.value))), Updated)
  }

  /** The target's entry after the operation; replacing a file keeps its mode, creating one sets it. */
  function Apply(env: Env, op: Operation, entry: Option<Entry>): (Option<Entry>, Outcome) {
    if op.kind == ReplaceIfPristine && entry.None? then (None, Skipped)
    else if op.rendered.None? then (entry, Failed)
    else
      var rendered := op.rendered.value;
      match op.kind
      case CreateIfMissing =>
        if entry.None? then (Some(Entry(rendered, Perm(op.mode))), Created)
        else if entry.value.bytes != rendered then (entry, Conflict("existing file differs"))
        else FixMode(entry.value, op.mode)
      case CreateOrReplaceIfPristine =>
        if entry.None? then (Some(Entry(rendered, Perm(op.mode))), Created)
        else ReplacePristine(env, op, entry.value, rendered)
      case ReplaceIfPristine =>
        ReplacePristine(env, op, entry.value, rendered)
      case MergeJson =>
        match env.codec.decode(rendered)
        case None => (entry, Failed)
        case Some(source) =>
          if entry.None? then (Some(Entry(env.codec.encode(source), Perm(op.mode))), Created)
          else MergeInto(env, op, entry.value, source)
  }

  // ---------------------------------------------------------------- a sequence of operations

  function At(files: Files, p: Path): Option<Entry> {
    if p in files then Some(files[p]) else None
  }

  function Put(files: Files, p: Path, entry: Option<Entry>): Files {
    if entry.Some? then files[p := entry.value] else files
  }

  datatype Progress = Progress(files: Files, failed: bool)

  function ApplyAll(env: Env, ops: seq<Operation>, files: Files): Progress {
    if ops == [] then Progress(files, false)
    else
      var before := ApplyAll(env, ops[..|ops| - 1], files);
      var op := ops[|ops| - 1];
      if before.failed then before
      else
        var (entry, outcome) := Apply(env, op, At(before.files, op.target));
        Progress(Put(before.files, op.target, entry), outcome == Failed)
  }

  /** The targets that a sequence reports with the given outcome, in order. */
  function Listed(env: Env, ops: seq<Operation>, files: Files, outcome: Outcome): seq<Path> {
    if ops == [] then []
    else
      var front, op := ops[..|ops| - 1], ops[|ops| - 1];
      var before := ApplyAll(env, front, files);
      if before.failed then Listed(env, front, files, outcome)
      else Listed(env, front, files, outcome)
           + (if Apply(env, op, At(before.files, op.target)).1 == outcome then [op.target] else [])
  }

  /** The conflicts that a sequence reports, in order. */
  function Conflicts(env: Env, ops: seq<Operation>, files: Files): seq<(Path, string)> {
    if ops == [] then []
    else
      var front, op := ops[..|ops| - 1], ops[|ops| - 1];
      var before := ApplyAll(env, front, files);
      if before.failed then Conflicts(env, front, files)
      else
        var outcome := Apply(env, op, At(before.files, op.target)).1;
        Conflicts(env, front, files) + if outcome.Conflict? then [(op.target, outcome.reason)] else []
  }

  // ---------------------------------------------------------------- the imperative form

  /** The lists that applying one template fills. */
  class TemplateResult {
    var created: seq<Path>
    var updated: seq<Path>
    var unchangedPaths: seq<Path>
    var skippedConflicts: seq<(Path, string)>

    constructor ()
      ensures created == updated == unchangedPaths == [] && skippedConflicts == []
    {
      created, updated, unchangedPaths, skippedConflicts := [], [], [], [];
    }

    method Record(target: Path, outcome: Outcome)
      modifies this
      ensures created == old(created) + if outcome == Created then [target] else []
      ensures updated == old(updated) + if outcome == Updated then [target] else []
      ensures unchangedPaths == old(unchangedPaths) + if outcome == Unchanged then [target] else []
      ensures skippedConflicts == old(skippedConflicts) + if outcome.Conflict? then [(target, outcome.reason)] else []
    {
      match outcome {
        case Created => created := created + [target];
        case Updated => updated := updated + [target];
        case Unchanged => unchangedPaths := unchangedPaths + [target];
        case Conflict(reason) => skippedConflicts := skippedConflicts + [(target, reason)];
        case _ =>
      }
    }
  }

  class Project {
    const env: Env
    var files: Files

    constructor (env: Env, files: Files)
      ensures this.env == env && this.files == files
    {
      this.env := env;
      this.files := files;
    }

    /** chmod when the permission bits differ. */
    method EnsureMode(target: Path, mode: nat) returns (outcome: Outcome)
      requires target in files
      modifies this`files
      ensures (At(files, target), outcome) == FixMode(old(files[target]), mode)
      ensures files == Put(old(files), target, At(files, target))
    {
      if files[target].mode == Perm(mode) {
        return Unchanged;
      }
      files := files[target := files[target].(mode := Perm(mode))];
      return Updated;
    }

    method ApplyReplace(op: Operation, rendered: Bytes) returns (outcome: Outcome)
      requires op.target in files
      modifies this`files
      ensures (At(files, op.target), outcome) == ReplacePristine(env, op, old(files[op.target]), rendered)
      ensures files == Put(old(files), op.target, At(files, op.target))
    {
      var existing := files[op.target].bytes;
      if existing == rendered {
        outcome := EnsureMode(op.target, op.mode);
        return;
      }
      var matched := MatchesPristine(env, existing, op.pristine);
      if matched.None? {
        return Failed;
      }
      if !matched.value {
        return Conflict("existing file differs from init scaffold");
      }
      files := files[op.target := files[op.target].(bytes := rendered)];
      return Updated;
    }

    method ApplyMerge(op: Operation, rendered: Bytes) returns (outcome: Outcome)
      requires op.kind == MergeJson && op.rendered == Some(rendered)
      modifies this`files
      ensures var (entry, out) := Apply(env, op, old(At(files, op.target)));
              files == Put(old(files), op.target, entry) && outcome == out
    {
      var source := env.codec.decode(rendered);
      if source.None? {
        return Failed;
      }
      if op.target !in files {
        files := files[op.target := Entry(env.codec.encode(source.value), Perm(op.mode))];
        return Created;
      }
      var target := env.codec.decode(files[op.target].bytes);
      if target.None? {
        return Conflict("existing file is not valid JSON");
      }
      var merged := MergeValues(target.value, source.value);
      if merged.None? {
        return Conflict("existing JSON structure conflicts with template");
      }
      if !merged.value.changed {
        outcome := EnsureMode(op.target, op.mode);
        return;
      }
      files := files[op.target := files[op.target].(bytes := env.codec.encode(merged.value.value))];
      return Updated;
    }

    method ApplyOperation(op: Operation) returns (outcome: Outcome)
      modifies this`files
      ensures var (entry, out) := Apply(env, op, old(At(files, op.target)));
              files == Put(old(files), op.target, entry) && outcome == out
    {
      if op.kind == ReplaceIfPristine && op.target !in files {
        return Skipped;
      }
      if op.rendered.None? {
        return Failed;
      }
      var rendered := op.rendered.value;
      if op.kind == MergeJson {
        outcome := ApplyMerge(op, rendered);
        return;
      }
      if op.target !in files {
        files := files[op.target := Entry(rendered, Perm(op.mode))];
        return Created;
      }
      if op.kind == CreateIfMissing {
        if files[op.target].bytes != rendered {
          return Conflict("existing file differs");
        }
        outcome := EnsureMode(op.target, op.mode);
        return;
      }
      outcome := ApplyReplace(op, rendered);
    }

    /** ApplyTemplates: one template after the other until one fails, which is one sequence of operations. */
    method ApplyTemplates(templates: seq<seq<Operation>>) returns (failed: bool)
      modifies this`files
      ensures Progress(files, failed) == ApplyAll(env, Flat(templates), old(files))
    {
      hide ApplyAll;
      NoOperations(env, old(files));
      for i := 0 to |templates|
        invariant Progress(files, false) == ApplyAll(env, Flat(templates[..i]), old(files))
      {
        assert templates[..i + 1][..i] == templates[..i];
        ApplyAllConcat(env, Flat(templates[..i]), templates[i], old(files));
        var result := new TemplateResult();
        failed := ApplyTemplate(templates[i], result);
        if failed {
          FailedTemplateEnds(env, templates, old(files), i + 1);
          return true;
        }
      }
      assert templates[..|templates|] == templates;
      return false;
    }

    /** The loop of applyInitTemplate: operations in order until one fails, results recorded. */
    method ApplyTemplate(ops: seq<Operation>, result: TemplateResult) returns (failed: bool)
      modifies this`files, result
      ensures Progress(files, failed) == ApplyAll(env, ops, old(files))
      ensures !failed ==>
                && result.created == old(result.created) + Listed(env, ops, old(files), Created)
                && result.updated == old(result.updated) + Listed(env, ops, old(files), Updated)
                && result.unchangedPaths == old(result.unchangedPaths) + Listed(env, ops, old(files), Unchanged)
                && result.skippedConflicts == old(result.skippedConflicts) + Conflicts(env, ops, old(files))
    {
      hide Apply, ApplyAll, Listed, Conflicts;
      failed := false;
      NothingListed(env, old(files));
      for i := 0 to |ops|
        invariant !failed && Progress(files, false) == ApplyAll(env, ops[..i], old(files))
        invariant result.created == old(result.created) + Listed(env, ops[..i], old(files), Created)
        invariant result.updated == old(result.updated) + Listed(env, ops[..i], old(files), Updated)
        invariant result.unchangedPaths == old(result.unchangedPaths) + Listed(env, ops[..i], old(files), Unchanged)
        invariant result.skippedConflicts == old(result.skippedConflicts) + Conflicts(env, ops[..i], old(files))
      {
        OneMore(env, ops, old(files), i);
        var outcome := ApplyOperation(ops[i]);
        if outcome == Failed {
          FailureIsFinal(env, ops, old(files), i + 1);
          return true;
        }
        result.Record(ops[i].target, outcome);
      }
      assert ops[..|ops|] == ops;
    }
  }

  lemma NoOperations(env: Env, files: Files)
    ensures ApplyAll(env, [], files) == Progress(files, false)
  {
  }

  lemma NothingListed(env: Env, files: Files)
    ensures ApplyAll(env, [], files) == Progress(files, false) && Conflicts(env, [], files) == []
    ensures forall outcome :: Listed(env, [], files, outcome) == []
  {
  }

  /** One more operation of a sequence that has not failed: its effect and what it adds to each list. */
  lemma OneMore(env: Env, ops: seq<Operation>, files: Files, i: nat)
    requires i < |ops| && !ApplyAll(env, ops[..i], files).failed
    ensures var before, target := ApplyAll(env, ops[..i], files).files, ops[i].target;
            var (entry, out) := Apply(env, ops[i], At(before, target));
            && ApplyAll(env, ops[..i + 1], files) == Progress(Put(before, target, entry), out == Failed)
            && (forall outcome :: Listed(env, ops[..i + 1], files, outcome)
                                  == Listed(env, ops[..i], files, outcome) + if out == outcome then [target] else [])
            && Conflicts(env, ops[..i + 1], files)
               == Conflicts(env, ops[..i], files) + if out.Conflict? then [(target, out.reason)] else []
  {
    hide Apply;
    assert ops[..i + 1][..i] == ops[..i];
  }

  function Flat(templates: seq<seq<Operation>>): seq<Operation> {
    if templates == [] then [] else Flat(templates[..|templates| - 1]) + templates[|templates| - 1]
  }

  /** Running two sequences one after the other, the second only if the first did not fail. */
  lemma {:induction false} ApplyAllConcat(env: Env, a: seq<Operation>, b: seq<Operation>, files: Files)
    ensures var first := ApplyAll(env, a, files);
            ApplyAll(env, a + b, files) == if first.failed then first else ApplyAll(env, b, first.files)
  {
    hide Apply;
    if b == [] {
      assert a + b == a;
    } else {
      ApplyAllConcat(env, a, b[..|b| - 1], files);
      assert (a + b)[..|a + b| - 1] == a + b[..|b| - 1];
    }
  }

  lemma {:induction false} FailedTemplateEnds(env: Env, templates: seq<seq<Operation>>, files: Files, i: nat)
    requires i <= |templates| && ApplyAll(env, Flat(templates[..i]), files).failed
    ensures ApplyAll(env, Flat(templates), files) == ApplyAll(env, Flat(templates[..i]), files)
  {
    hide ApplyAll;
    if i < |templates| {
      var front := templates[..|templates| - 1];
      assert front[..i] == templates[..i];
      FailedTemplateEnds(env, front, files, i);
      ApplyAllConcat(env, Flat(front), templates[|templates| - 1], files);
    } else {
      assert templates[..i] == templates;
    }
  }

  lemma {:induction false} FailureIsFinal(env: Env, ops: seq<Operation>, files: Files, i: nat)
    requires i <= |ops| && ApplyAll(env, ops[..i], files).failed
    ensures ApplyAll(env, ops, files) == ApplyAll(env, ops[..i], files)
  {
    if i < |ops| {
      var front := ops[..|ops| - 1];
      assert front[..i] == ops[..i];
      FailureIsFinal(env, front, files, i);
    } else {
      assert ops[..i] == ops;
    }
  }

  /** What the lists of a run contain: the targets of the operations that came to it, by their outcome there. */
  lemma {:induction false} ListedExactly(env: Env, ops: seq<Operation>, files: Files, outcome: Outcome, p: Path)
    ensures p in Listed(env, ops, files, outcome) <==>
              exists i :: 0 <= i < |ops| && ops[i].target == p && OutcomeAt(env, ops, files, i) == Some(outcome)
  {
    hide Apply, ApplyAll;
    if ops != [] {
      var n := |ops| - 1;
      ListedExactly(env, ops[..n], files, outcome, p);
      assert forall i :: 0 <= i < n ==> ops[..n][..i] == ops[..i];
      assert forall i :: 0 <= i < n ==> OutcomeAt(env, ops[..n], files, i) == OutcomeAt(env, ops, files, i);
      if i :| 0 <= i < n && ops[..n][i].target == p && OutcomeAt(env, ops[..n], files, i) == Some(outcome) {
        assert ops[i] == ops[..n][i];
      }
      if i :| 0 <= i < |ops| && ops[i].target == p && OutcomeAt(env, ops, files, i) == Some(outcome) {
        assert i < n ==> ops[..n][i] == ops[i];
      }
    }
  }

  lemma {:induction false} ConflictsExactly(env: Env, ops: seq<Operation>, files: Files, p: Path, reason: string)
    ensures (p, reason) in Conflicts(env, ops, files) <==>
              exists i :: 0 <= i < |ops| && ops[i].target == p && OutcomeAt(env, ops, files, i) == Some(Conflict(reason))
  {
    hide Apply, ApplyAll;
    if ops != [] {
      var n := |ops| - 1;
      ConflictsExactly(env, ops[..n], files, p, reason);
      assert forall i :: 0 <= i < n ==> ops[..n][..i] == ops[..i];
      assert forall i :: 0 <= i < n ==> OutcomeAt(env, ops[..n], files, i) == OutcomeAt(env, ops, files, i);
      if i :| 0 <= i < n && ops[..n][i].target == p && OutcomeAt(env, ops[..n], files, i) == Some(Conflict(reason)) {
        assert ops[i] == ops[..n][i];
      }
      if i :| 0 <= i < |ops| && ops[i].target == p && OutcomeAt(env, ops, files, i) == Some(Conflict(reason)) {
        assert i < n ==> ops[..n][i] == ops[i];
      }
    }
  }

  /** The outcome of operation i of a run that comes to it. */
  function OutcomeAt(env: Env, ops: seq<Operation>, files: Files, i: nat): Option<Outcome>
    requires i < |ops|
  {
    var before := ApplyAll(env, ops[..i], files);
    if before.failed then None else Some(Apply(env, ops[i], At(before.files, ops[i].target)).1)
  }

  // ---------------------------------------------------------------- files are never lost or clobbered

  lemma {:induction false} NoPathDisappears(env: Env, ops: seq<Operation>, files: Files)
    ensures files.Keys <= ApplyAll(env, ops, files).files.Keys
  {
    if ops != [] {
      NoPathDisappears(env, ops[..|ops| - 1], files);
    }
  }

  lemma {:induction false} MatchMeaning(env: Env, existing: Bytes, ids: seq<string>)
    requires MatchesPristine(env, existing, ids) == Some(true)
    ensures exists i :: 0 <= i < |ids| && ids[i] in env.pristine && env.pristine[ids[i]] == existing
  {
    if env.pristine[ids[0]] != existing {
      MatchMeaning(env, existing, ids[1..]);
      var i :| 0 <= i < |ids[1..]| && ids[1..][i] in env.pristine && env.pristine[ids[1..][i]] == existing;
      assert ids[i + 1] == ids[1..][i];
    }
  }

  /** The bytes of one of the contents that the operation lists as pristine. */
  ghost predicate IsPristine(env: Env, op: Operation, bytes: Bytes) {
    exists i :: 0 <= i < |op.pristine| && op.pristine[i] in env.pristine && env.pristine[op.pristine[i]] == bytes
  }

  /** The bytes are JSON that lacks something of the fragment and could hold it besides what it holds. */
  ghost predicate CanTakeFragment(env: Env, op: Operation, bytes: Bytes) {
    && op.rendered.Some? && env.codec.decode(op.rendered.value).Some? && env.codec.decode(bytes).Some?
    && !Within(env.codec.decode(op.rendered.value).value, env.codec.decode(bytes).value)
    && exists bound :: CommonBound(env.codec.decode(bytes).value, env.codec.decode(op.rendered.value).value, bound)
  }

  /** An operation that could overwrite these bytes: a merge that they can take, or a replacement that lists them as pristine. */
  ghost predicate MayOverwrite(env: Env, op: Operation, bytes: Bytes) {
    (op.kind == MergeJson && CanTakeFragment(env, op, bytes))
    || ((op.kind == ReplaceIfPristine || op.kind == CreateOrReplaceIfPristine) && IsPristine(env, op, bytes))
  }

  /** A merge writes only where it can: into JSON, without conflict, and when something is missing. */
  lemma MergeOverwritesExactly(env: Env, op: Operation, e: Entry)
    requires op.kind == MergeJson
    ensures Apply(env, op, Some(e)).0.Some?
    ensures Apply(env, op, Some(e)).0.value.bytes != e.bytes ==> CanTakeFragment(env, op, e.bytes)
  {
    hide Within, Merge;
    if op.rendered.Some? && env.codec.decode(op.rendered.value).Some? && env.codec.decode(e.bytes).Some? {
      var target, source := env.codec.decode(e.bytes).value, env.codec.decode(op.rendered.value).value;
      if Merge(target, source).Some? {
        MergeUnchangedExactly(target, source);
        MergeIsLeastUpperBound(target, source);
      }
    }
  }

  /** A file that is not JSON keeps its bytes through any merges, whatever they add elsewhere. */
  lemma {:induction false} UnreadableFilesKept(env: Env, ops: seq<Operation>, files: Files, p: Path)
    requires p in files && env.codec.decode(files[p].bytes).None?
    requires forall i :: 0 <= i < |ops| && ops[i].target == p && ops[i].kind != MergeJson && ops[i].kind != CreateIfMissing ==>
               forall k :: 0 <= k < |ops[i].pristine| && ops[i].pristine[k] in env.pristine ==>
                 env.pristine[ops[i].pristine[k]] != files[p].bytes
    ensures var after := ApplyAll(env, ops, files).files; p in after && after[p].bytes == files[p].bytes
  {
    EditedFilesKept(env, ops, files, p);
  }

  /** A file whose content no operation on it may overwrite keeps its content through the whole sequence. */
  lemma {:induction false} EditedFilesKept(env: Env, ops: seq<Operation>, files: Files, p: Path)
    requires p in files
    requires forall i :: 0 <= i < |ops| && ops[i].target == p ==> !MayOverwrite(env, ops[i], files[p].bytes)
    ensures var after := ApplyAll(env, ops, files).files; p in after && after[p].bytes == files[p].bytes
  {
    hide Apply, MayOverwrite;
    if ops != [] {
      var n := |ops| - 1;
      EditedFilesKept(env, ops[..n], files, p);
      var before := ApplyAll(env, ops[..n], files);
      if !before.failed && ops[n].target == p {
        NotOverwritten(env, ops[n], before.files[p]);
      }
    }
  }

  lemma NotOverwritten(env: Env, op: Operation, e: Entry)
    ensures Apply(env, op, Some(e)).0.Some?
    ensures !MayOverwrite(env, op, e.bytes) ==> Apply(env, op, Some(e)).0.value.bytes == e.bytes
  {
    if op.kind == MergeJson {
      MergeOverwritesExactly(env, op, e);
    }
    if op.rendered.Some? && MatchesPristine(env, e.bytes, op.pristine) == Some(true) {
      MatchMeaning(env, e.bytes, op.pristine);
    }
  }

  /** Replacing the bytes of an existing file takes a licence for them, keeps the mode and is reported. */
  lemma OverwriteNeedsLicence(env: Env, op: Operation, e: Entry)
    requires RoundTrips(env.codec)
    ensures Apply(env, op, Some(e)).0.Some?
    ensures Apply(env, op, Some(e)).0.value.bytes != e.bytes
            ==> MayOverwrite(env, op, e.bytes) && op.rendered.Some? && op.rendered != Some(e.bytes)
                && Apply(env, op, Some(e)) == (Some(e.(bytes := Apply(env, op, Some(e)).0.value.bytes)), Updated)
  {
    if op.rendered.Some? && MatchesPristine(env, e.bytes, op.pristine) == Some(true) {
      MatchMeaning(env, e.bytes, op.pristine);
    }
    if op.kind == MergeJson {
      MergeOverwritesExactly(env, op, e);
    }
    if op.kind == MergeJson && op.rendered == Some(e.bytes) && env.codec.decode(e.bytes).Some? {
      WithinReflexive(env.codec.decode(e.bytes).value);
    }
  }

  lemma {:induction false} MatchExactly(env: Env, existing: Bytes, ids: seq<string>)
    requires forall id :: id in ids ==> id in env.pristine
    ensures MatchesPristine(env, existing, ids)
            == Some(exists i :: 0 <= i < |ids| && ids[i] in env.pristine && env.pristine[ids[i]] == existing)
  {
    if ids != [] {
      assert ids[0] in ids;
      MatchExactly(env, existing, ids[1..]);
      if i :| 0 <= i < |ids| && ids[i] in env.pristine && env.pristine[ids[i]] == existing {
        assert i > 0 ==> ids[1..][i - 1] == ids[i];
      }
      if i :| 0 <= i < |ids[1..]| && ids[1..][i] in env.pristine && env.pristine[ids[1..][i]] == existing {
        assert ids[i + 1] == ids[1..][i];
      }
    }
  }

  /** With known pristine ids an existing file is upgraded exactly when it is pristine; an edited one is a conflict. */
  lemma PristineUpgradedExactly(env: Env, op: Operation, e: Entry)
    requires op.kind == ReplaceIfPristine || op.kind == CreateOrReplaceIfPristine
    requires op.rendered.Some? && forall id :: id in op.pristine ==> id in env.pristine
    ensures var (after, outcome) := Apply(env, op, Some(e));
            && after.Some?
            && (after.value.bytes == op.rendered.value <==> e.bytes == op.rendered.value || IsPristine(env, op, e.bytes))
            && (outcome.Conflict? <==> e.bytes != op.rendered.value && !IsPristine(env, op, e.bytes))
  {
    MatchExactly(env, e.bytes, op.pristine);
  }

  /** Merging into a JSON file leaves the least value that holds both sides, or a conflict when there is none. */
  lemma MergedFileIsLeast(env: Env, op: Operation, e: Entry, target: Json, source: Json)
    requires RoundTrips(env.codec) && op.kind == MergeJson && op.rendered.Some?
    requires env.codec.decode(op.rendered.value) == Some(source) && env.codec.decode(e.bytes) == Some(target)
    ensures var (after, outcome) := Apply(env, op, Some(e));
            && (outcome.Conflict? <==> forall bound :: !CommonBound(target, source, bound))
            && (outcome.Conflict? ==> after == Some(e))
            && (!outcome.Conflict? ==> after.Some? && LeastBoth(env, after.value.bytes, target, source))
  {
    hide Within, Merge;
    Rereads(env, e.bytes, op.rendered.value);
    MergeIsLeastUpperBound(target, source);
    if Merge(target, source).Some? {
      MergeUnchangedExactly(target, source);
    }
  }

  ghost predicate LeastBoth(env: Env, bytes: Bytes, a: Json, b: Json) {
    env.codec.decode(bytes).Some?
    && CommonBound(a, b, env.codec.decode(bytes).value)
    && forall bound :: CommonBound(a, b, bound) ==> Within(env.codec.decode(bytes).value, bound)
  }

  /** What the modes and the outcome are when the content is right already. */
  ghost predicate ModeSet(op: Operation, e: Entry, after: Option<Entry>, outcome: Outcome) {
    && after == Some(Entry(e.bytes, op.mode % 512))
    && outcome == if e.mode == op.mode % 512 then Unchanged else Updated
  }

  /**
   * A merge into an existing file: a conflict that leaves the file alone exactly when the file is not
   * JSON or no value holds both sides; the mode alone is set when the file holds the fragment;
   * otherwise the least value that holds both is written and the mode is kept.
   */
  lemma MergeOutcomeExactly(env: Env, op: Operation, e: Entry, source: Json)
    requires RoundTrips(env.codec) && op.kind == MergeJson && op.rendered.Some?
    requires env.codec.decode(op.rendered.value) == Some(source)
    ensures var (after, outcome) := Apply(env, op, Some(e));
            match env.codec.decode(e.bytes)
            case None => after == Some(e) && outcome == Conflict("existing file is not valid JSON")
            case Some(target) =>
              if forall bound :: !CommonBound(target, source, bound)
              then after == Some(e) && outcome == Conflict("existing JSON structure conflicts with template")
              else if Within(source, target) then ModeSet(op, e, after, outcome)
              else after.Some? && after.value.mode == e.mode && outcome == Updated && LeastBoth(env, after.value.bytes, target, source)
  {
    hide Within, Merge, LeastBoth;
    if env.codec.decode(e.bytes).Some? {
      var target := env.codec.decode(e.bytes).value;
      MergedFileIsLeast(env, op, e, target, source);
      MergeIsLeastUpperBound(target, source);
      if Merge(target, source).Some? {
        MergeUnchangedExactly(target, source);
      }
    }
  }

  /** An unknown pristine id stands before any that matches. */
  ghost predicate UnknownFirst(env: Env, bytes: Bytes, ids: seq<string>) {
    exists i :: 0 <= i < |ids| && ids[i] !in env.pristine
                && forall k :: 0 <= k < i ==> ids[k] in env.pristine && env.pristine[ids[k]] != bytes
  }

  lemma {:induction false} MatchFailsExactly(env: Env, existing: Bytes, ids: seq<string>)
    ensures MatchesPristine(env, existing, ids).None? <==> UnknownFirst(env, existing, ids)
  {
    if ids != [] {
      MatchFailsExactly(env, existing, ids[1..]);
      if i :| 0 <= i < |ids| && ids[i] !in env.pristine
              && forall k :: 0 <= k < i ==> ids[k] in env.pristine && env.pristine[ids[k]] != existing {
        if i > 0 {
          assert ids[0] in env.pristine && env.pristine[ids[0]] != existing;
          assert ids[1..][i - 1] == ids[i];
          assert forall k :: 0 <= k < i - 1 ==> ids[1..][k] == ids[k + 1];
        }
      }
      if i :| 0 <= i < |ids[1..]| && ids[1..][i] !in env.pristine
              && forall k :: 0 <= k < i ==> ids[1..][k] in env.pristine && env.pristine[ids[1..][k]] != existing {
        if ids[0] in env.pristine && env.pristine[ids[0]] != existing {
          assert ids[i + 1] == ids[1..][i];
          assert forall k :: 0 < k < i + 1 ==> ids[k] == ids[1..][k - 1];
        }
      }
    }
  }

  /** When an operation fails, and so ends the run: never after touching its target. */
  lemma FailsExactly(env: Env, op: Operation, entry: Option<Entry>)
    ensures Apply(env, op, entry).1 == Failed <==>
            !(op.kind == ReplaceIfPristine && entry.None?)
            && (op.rendered.None?
                || (op.kind == MergeJson && env.codec.decode(op.rendered.value).None?)
                || ((op.kind == ReplaceIfPristine || op.kind == CreateOrReplaceIfPristine) && entry.Some?
                    && entry.value.bytes != op.rendered.value && UnknownFirst(env, entry.value.bytes, op.pristine)))
    ensures Apply(env, op, entry).1 == Failed ==> Apply(env, op, entry).0 == entry
  {
    hide Merge, UnknownFirst;
    if entry.Some? {
      MatchFailsExactly(env, entry.value.bytes, op.pristine);
    }
  }

  /** A creation leaves an existing file's bytes; a replacement writes over pristine ones only; equal content gets its mode. */
  lemma FileOutcomeExactly(env: Env, op: Operation, e: Entry)
    requires op.kind != MergeJson && op.rendered.Some? && forall id :: id in op.pristine ==> id in env.pristine
    ensures var (after, outcome) := Apply(env, op, Some(e));
            if e.bytes == op.rendered.value then ModeSet(op, e, after, outcome)
            else if op.kind != CreateIfMissing && IsPristine(env, op, e.bytes)
            then after == Some(Entry(op.rendered.value, e.mode)) && outcome == Updated
            else after == Some(e) && outcome == Conflict(if op.kind == CreateIfMissing then "existing file differs"
                                                         else "existing file differs from init scaffold")
  {
    MatchExactly(env, e.bytes, op.pristine);
  }

  /** An absent target is created with the wanted content and mode, except by a replacement, which skips it. */
  lemma AbsentIsCreatedExactly(env: Env, op: Operation)
    requires RoundTrips(env.codec) && op.rendered.Some?
    requires op.kind == MergeJson ==> env.codec.decode(op.rendered.value).Some?
    ensures var (after, outcome) := Apply(env, op, None);
            && (after.None? <==> op.kind == ReplaceIfPristine) && (outcome == Skipped <==> after.None?)
            && (after.Some? ==> outcome == Created && after.value.mode == op.mode % 512
                                && env.codec.decode(after.value.bytes) == env.codec.decode(op.rendered.value)
                                && (op.kind != MergeJson ==> after.value.bytes == op.rendered.value))
  {
    Rereads(env, op.rendered.value, op.rendered.value);
  }

  /** Operations that only add: merges and creations. */
  ghost predicate OnlyAdds(op: Operation) {
    op.kind == MergeJson || op.kind == CreateIfMissing
  }

  /** Under merges and creations an existing JSON file only grows: what it held it still holds. */
  lemma {:induction false} MergesOnlyAdd(env: Env, ops: seq<Operation>, files: Files, p: Path, v: Json)
    requires RoundTrips(env.codec) && p in files && env.codec.decode(files[p].bytes) == Some(v)
    requires forall i :: 0 <= i < |ops| && ops[i].target == p ==> OnlyAdds(ops[i])
    ensures var after := ApplyAll(env, ops, files).files;
            p in after && env.codec.decode(after[p].bytes).Some? && Within(v, env.codec.decode(after[p].bytes).value)
  {
    if ops == [] {
      WithinReflexive(v);
    } else {
      var n := |ops| - 1;
      MergesOnlyAdd(env, ops[..n], files, p, v);
      var before := ApplyAll(env, ops[..n], files);
      if !before.failed && ops[n].target == p {
        MergeStepAdds(env, ops[n], before.files[p], v);
      }
    }
  }

  lemma MergeStepAdds(env: Env, op: Operation, e: Entry, v: Json)
    requires RoundTrips(env.codec) && OnlyAdds(op)
    requires env.codec.decode(e.bytes).Some? && Within(v, env.codec.decode(e.bytes).value)
    ensures var e' := Apply(env, op, Some(e)).0;
            e'.Some? && env.codec.decode(e'.value.bytes).Some? && Within(v, env.codec.decode(e'.value.bytes).value)
  {
    if op.rendered.Some? {
      Rereads(env, e.bytes, op.rendered.value);
      Rereads(env, op.rendered.value, op.rendered.value);
    }
    var u := env.codec.decode(e.bytes).value;
    if op.kind == MergeJson && op.rendered.Some? && env.codec.decode(op.rendered.value).Some? {
      var source := env.codec.decode(op.rendered.value).value;
      if Merge(u, source).Some? {
        MergeIsUpperBound(u, source);
        WithinTransitive(v, u, Merge(u, source).value.value);
      }
    }
  }

  // ---------------------------------------------------------------- running again

  /** The report is truthful: created paths were absent, updated ones differ, all others are as before. */
  lemma ReportIsTruthful(env: Env, op: Operation, entry: Option<Entry>)
    requires RoundTrips(env.codec)
    ensures var (after, outcome) := Apply(env, op, entry);
            && (outcome == Created <==> entry.None? && after.Some?)
            && (outcome == Updated <==> entry.Some? && after.Some? && after != entry)
            && (outcome != Created && outcome != Updated ==> after == entry)
  {
    if op.rendered.Some? {
      Rereads(env, if entry.Some? then entry.value.bytes else op.rendered.value, op.rendered.value);
    }
    if op.kind == MergeJson && op.rendered.Some? && env.codec.decode(op.rendered.value).Some?
       && entry.Some? && env.codec.decode(entry.value.bytes).Some? {
      var source, target := env.codec.decode(op.rendered.value).value, env.codec.decode(entry.value.bytes).value;
      if Merge(target, source).Some? {
        MergeIsUpperBound(target, source);
        MergeUnchangedExactly(target, source);
        assert env.codec.decode(env.codec.encode(Merge(target, source).value.value)) == Some(Merge(target, source).value.value);
      }
    }
  }

  function After(env: Env, op: Operation, entry: Option<Entry>): Option<Entry> {
    Apply(env, op, entry).0
  }

  predicate SameBytes(a: Option<Entry>, b: Option<Entry>) {
    a.Some? == b.Some? && (a.Some? ==> a.value.bytes == b.value.bytes)
  }

  ghost predicate SettlesFrom(env: Env, op: Operation, e0: Option<Entry>) {
    var e1 := After(env, op, e0);
    var e2 := After(env, op, e1);
    && SameBytes(e1, e2) && After(env, op, e2) == e2
    && (Apply(env, op, e1).1 == Failed <==> Apply(env, op, e0).1 == Failed)
    && (Apply(env, op, e0).1 == Failed ==> e1 == e0)
  }

  /** One operation settles: content after its first run, mode too after its second; failures repeat. */
  lemma OperationSettles(env: Env, op: Operation, e0: Option<Entry>)
    requires RoundTrips(env.codec)
    ensures SettlesFrom(env, op, e0)
  {
    hide RoundTrips, SettlesFrom;
    if op.kind == MergeJson {
      MergeOperationSettles(env, op, e0);
    } else {
      FileOperationSettles(env, op, e0);
    }
  }

  lemma FileOperationSettles(env: Env, op: Operation, e0: Option<Entry>)
    requires op.kind != MergeJson
    ensures SettlesFrom(env, op, e0)
  {
    hide MergeInto;
  }

  lemma MergeOperationSettles(env: Env, op: Operation, e0: Option<Entry>)
    requires RoundTrips(env.codec) && op.kind == MergeJson
    ensures SettlesFrom(env, op, e0)
  {
    hide Within, Merge, RoundTrips, ReplacePristine;
    if op.rendered.Some? && env.codec.decode(op.rendered.value).Some? {
      var source := env.codec.decode(op.rendered.value).value;
      WithinReflexive(source);
      MergeIsLeast(source, source, source);
      MergeUnchangedExactly(source, source);
      Rereads(env, op.rendered.value, op.rendered.value);
      if e0.Some? && env.codec.decode(e0.value.bytes).Some? {
        var target := env.codec.decode(e0.value.bytes).value;
        Rereads(env, e0.value.bytes, op.rendered.value);
        if Merge(target, source).Some? {
          MergeIdempotent(target, source);
        }
      }
    }
  }

  /** The second run still has work exactly when the first replaced a file that has another mode. */
  lemma SecondRunExactly(env: Env, op: Operation, e0: Option<Entry>)
    requires RoundTrips(env.codec)
    ensures var e1 := After(env, op, e0);
            After(env, op, e1) != e1
            <==> e0.Some? && e1.Some? && e1.value.bytes != e0.value.bytes && e0.value.mode != Perm(op.mode)
  {
    if op.rendered.Some? {
      Rereads(env, if e0.Some? then e0.value.bytes else op.rendered.value, op.rendered.value);
      Rereads(env, op.rendered.value, op.rendered.value);
    }
    OperationSettles(env, op, e0);
    if e0.Some? {
      OverwriteNeedsLicence(env, op, e0.value);
      if op.kind == MergeJson && op.rendered.Some? && env.codec.decode(op.rendered.value).Some?
         && env.codec.decode(e0.value.bytes).Some? {
        var source, target := env.codec.decode(op.rendered.value).value, env.codec.decode(e0.value.bytes).value;
        if Merge(target, source).Some? {
          MergeIsUpperBound(target, source);
          MergeUnchangedExactly(target, source);
          MergeIdempotent(target, source);
          assert env.codec.decode(env.codec.encode(Merge(target, source).value.value)) == Some(Merge(target, source).value.value);
        }
      }
    }
  }

  function Targets(ops: seq<Operation>): set<Path> {
    set i | 0 <= i < |ops| :: ops[i].target
  }

  ghost predicate DistinctTargets(ops: seq<Operation>) {
    forall i, j :: 0 <= i < j < |ops| ==> ops[i].target != ops[j].target
  }

  lemma TargetsFront(ops: seq<Operation>)
    requires ops != []
    ensures Targets(ops) == Targets(ops[..|ops| - 1]) + {ops[|ops| - 1].target}
    ensures DistinctTargets(ops) ==> DistinctTargets(ops[..|ops| - 1]) && ops[|ops| - 1].target !in Targets(ops[..|ops| - 1])
  {
    var n := |ops| - 1;
    forall p | p in Targets(ops)
      ensures p in Targets(ops[..n]) || p == ops[n].target
    {
      var i :| 0 <= i < |ops| && ops[i].target == p;
      assert i < n ==> ops[..n][i] == ops[i];
    }
    forall p | p in Targets(ops[..n])
      ensures p in Targets(ops)
    {
      var i :| 0 <= i < n && ops[..n][i].target == p;
      assert ops[i].target == p;
    }
    assert ops[n].target in Targets(ops);
  }

  /** Operations see and change only their targets. */
  lemma {:induction false} ApplyAllLocal(env: Env, ops: seq<Operation>, f: Files, g: Files)
    requires forall p :: p in Targets(ops) ==> At(f, p) == At(g, p)
    ensures var a, b := ApplyAll(env, ops, f), ApplyAll(env, ops, g);
            && a.failed == b.failed
            && (forall p :: p in Targets(ops) ==> At(a.files, p) == At(b.files, p))
            && (forall p :: p !in Targets(ops) ==> At(a.files, p) == At(f, p) && At(b.files, p) == At(g, p))
  {
    if ops != [] {
      TargetsFront(ops);
      ApplyAllLocal(env, ops[..|ops| - 1], f, g);
    }
  }

  /** Three runs of a template, told apart path by path. */
  ghost predicate Settled(env: Env, ops: seq<Operation>, files: Files) {
    var a := ApplyAll(env, ops, files);
    var b := ApplyAll(env, ops, a.files);
    var c := ApplyAll(env, ops, b.files);
    && a.failed == b.failed == c.failed
    && forall p :: SameBytes(At(a.files, p), At(b.files, p)) && At(c.files, p) == At(b.files, p)
  }

  /** Re-running a template whose operations have distinct targets: content is fixed after one run, all after two. */
  lemma {:induction false} TemplateSettles(env: Env, ops: seq<Operation>, files: Files)
    requires RoundTrips(env.codec) && DistinctTargets(ops)
    ensures Settled(env, ops, files)
  {
    if ops != [] {
      var front, op := ops[..|ops| - 1], ops[|ops| - 1];
      TargetsFront(ops);
      TemplateSettles(env, front, files);
      SettleStep(env, front, op, files);
      assert front + [op] == ops;
    }
  }

  lemma SettleStep(env: Env, front: seq<Operation>, op: Operation, files: Files)
    requires RoundTrips(env.codec) && op.target !in Targets(front) && Settled(env, front, files)
    ensures Settled(env, front + [op], files)
  {
    hide Apply, RoundTrips, Targets;
    var t := op.target;
    var ops := front + [op];
    assert ops[..|front|] == front;
    var fa := ApplyAll(env, front, files);
    var fb := ApplyAll(env, front, fa.files);
    var fc := ApplyAll(env, front, fb.files);
    var a := ApplyAll(env, ops, files);
    if !fa.failed {
      var e0 := At(files, t);
      OperationSettles(env, op, e0);
      ApplyAllLocal(env, front, files, files);
      assert At(fa.files, t) == e0;
      KeepsTarget(env, op, e0);
      PutAt(fa.files, t, After(env, op, e0));
      ApplyAllLocal(env, front, fa.files, a.files);
      var b := ApplyAll(env, ops, a.files);
      var gb := ApplyAll(env, front, a.files);
      var e1 := After(env, op, e0);
      assert At(a.files, t) == e1 && At(gb.files, t) == e1;
      ApplyAllLocal(env, front, a.files, a.files);
      KeepsTarget(env, op, e1);
      PutAt(gb.files, t, After(env, op, e1));
      ApplyAllLocal(env, front, fb.files, b.files);
      ApplyAllLocal(env, front, b.files, b.files);
      var gc := ApplyAll(env, front, b.files);
      var c := ApplyAll(env, ops, b.files);
      var e2 := After(env, op, e1);
      KeepsTarget(env, op, e2);
      OperationSettles(env, op, e1);
      PutAt(gc.files, t, After(env, op, e2));
      forall p
        ensures SameBytes(At(a.files, p), At(b.files, p)) && At(c.files, p) == At(b.files, p)
      {
        if p != t && p !in Targets(front) {
          assert At(a.files, p) == At(fa.files, p);
        }
      }
    }
  }

  lemma PutAt(files: Files, p: Path, entry: Option<Entry>)
    requires entry.None? ==> p !in files
    ensures forall q :: At(Put(files, p, entry), q) == if q == p then entry else At(files, q)
  {
  }

  lemma KeepsTarget(env: Env, op: Operation, entry: Option<Entry>)
    ensures entry.Some? ==> After(env, op, entry).Some?
  {
  }
}
