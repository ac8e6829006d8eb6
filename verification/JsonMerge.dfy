/**
 The additive JSON merge of init templates (internal/bootstrap/templates.go, lines 683-766).

 `Within(a, b)` says that b holds everything a holds: objects key by key, arrays by membership,
 scalars by equality.  It is a preorder, and `Merge` computes least upper bounds in it.
 */
module JsonMerge {
  import opened Wrappers

  datatype Json =
    | Null
    | Bool(b: bool)
    | Number(text: string)
    | Text(s: string)
    | Array(items: seq<Json>)
    | Object(fields: map<string, Json>)

  datatype Merged = Merged(value: Json, changed: bool)

  predicate Within(a: Json, b: Json) {
    match a
    case Object(fields) =>
      b.Object? && forall k :: k in fields ==> k in b.fields && Within(fields[k], b.fields[k])
    case Array(items) =>
      b.Array? && forall i :: 0 <= i < |items| ==> items[i] in b.items
    case _ => a == b
  }

  // ---------------------------------------------------------------- the merge

  /** The elements of `source` that `target` lacks, each once, in order of first occurrence. */
  function Missing(target: seq<Json>, source: seq<Json>): seq<Json> {
    if source == [] then []
    else
      var rest := Missing(target, source[..|source| - 1]);
      var last := source[|source| - 1];
      if last in target || last in rest then rest else rest + [last]
  }

  /** mergeInitJSONValues: None where the structures conflict. */
  function Merge(target: Json, source: Json): Option<Merged> {
    match source
    case Object(fields) =>
      if !target.Object? then None
      else if exists k :: k in fields && k in target.fields && Merge(target.fields[k], fields[k]).None? then None
      else
        var merged := map k | k in target.fields.Keys + fields.Keys ::
          if k !in fields then target.fields[k]
          else if k !in target.fields then fields[k]
          else MergedField(target.fields[k], Merge(target.fields[k], fields[k]));
        Some(Merged(Object(merged),
                    exists k :: k in fields && (k !in target.fields || Merge(target.fields[k], fields[k]).value.changed)))
    case Array(items) =>
      if !target.Array? then None
      else Some(Merged(Array(target.items + Missing(target.items, items)), Missing(target.items, items) != []))
    case _ =>
      if target == source then Some(Merged(target, false)) else None
  }

  /** An unchanged child leaves the cloned target value in place. */
  function MergedField(target: Json, child: Option<Merged>): Json {
    if child.Some? && child.value.changed then child.value.value else target
  }

  // ---------------------------------------------------------------- the preorder

  lemma {:induction false} WithinReflexive(a: Json)
    ensures Within(a, a)
  {
    if a.Object? {
      forall k | k in a.fields
        ensures Within(a.fields[k], a.fields[k])
      {
        WithinReflexive(a.fields[k]);
      }
    }
  }

  lemma {:induction false} WithinTransitive(a: Json, b: Json, c: Json)
    requires Within(a, b) && Within(b, c)
    ensures Within(a, c)
  {
    match a
    case Object(fields) =>
      forall k | k in fields
        ensures k in c.fields && Within(fields[k], c.fields[k])
      {
        WithinTransitive(fields[k], b.fields[k], c.fields[k]);
      }
    case Array(items) =>
      forall i | 0 <= i < |items|
        ensures items[i] in c.items
      {
        assert items[i] in b.items;
        var j :| 0 <= j < |b.items| && b.items[j] == items[i];
      }
    case _ =>
  }

  lemma {:induction false} MissingMembers(target: seq<Json>, source: seq<Json>)
    ensures forall x :: x in Missing(target, source) <==> x in source && x !in target
    ensures forall i, j :: 0 <= i < j < |Missing(target, source)| ==> Missing(target, source)[i] != Missing(target, source)[j]
  {
    if source != [] {
      var n := |source| - 1;
      MissingMembers(target, source[..n]);
      assert source == source[..n] + [source[n]];
    }
  }

  /** Where in the source each appended element first occurs: in this order. */
  lemma {:induction false} MissingInOrder(target: seq<Json>, source: seq<Json>) returns (at: seq<nat>)
    ensures |at| == |Missing(target, source)| && forall i, j :: 0 <= i < j < |at| ==> at[i] < at[j]
    ensures forall i :: 0 <= i < |at| ==> at[i] < |source| && source[at[i]] == Missing(target, source)[i]
    ensures forall i, k :: 0 <= i < |at| && 0 <= k < at[i] ==> source[k] != Missing(target, source)[i]
  {
    at := [];
    if source != [] {
      var n := |source| - 1;
      at := MissingInOrder(target, source[..n]);
      MissingMembers(target, source[..n]);
      if source[n] !in target && source[n] !in Missing(target, source[..n]) {
        assert forall k :: 0 <= k < n ==> source[k] == source[..n][k];
        assert source[n] !in source[..n];
        at := at + [n];
      }
    }
  }

  /** An array keeps its elements where they are; the source's missing ones follow in their order. */
  lemma ArraysGrowAtEnd(target: seq<Json>, source: seq<Json>) returns (tail: seq<Json>, at: seq<nat>)
    ensures Merge(Array(target), Array(source)) == Some(Merged(Array(target + tail), tail != []))
    ensures forall x :: x in tail <==> x in source && x !in target
    ensures |at| == |tail| && forall i, j :: 0 <= i < j < |at| ==> at[i] < at[j]
    ensures forall i :: 0 <= i < |at| ==> at[i] < |source| && source[at[i]] == tail[i] && tail[i] !in source[..at[i]]
  {
    tail := Missing(target, source);
    at := MissingInOrder(target, source);
    MissingMembers(target, source);
  }

  // ---------------------------------------------------------------- least upper bounds

  /** The merge holds everything both sides hold. */
  lemma {:induction false} MergeIsUpperBound(target: Json, source: Json)
    requires Merge(target, source).Some?
    ensures var m := Merge(target, source).value;
            Within(target, m.value) && Within(source, m.value)
    decreases source
  {
    WithinReflexive(target);
    match source
    case Object(fields) =>
      var merged := Merge(target, source).value.value;
      forall k | k in target.fields
        ensures Within(target.fields[k], merged.fields[k])
      {
        WithinReflexive(target.fields[k]);
        if k in fields {
          MergeIsUpperBound(target.fields[k], fields[k]);
        }
      }
      forall k | k in fields
        ensures Within(fields[k], merged.fields[k])
      {
        WithinReflexive(fields[k]);
        if k in target.fields {
          MergeIsUpperBound(target.fields[k], fields[k]);
          MergeUnchangedExactly(target.fields[k], fields[k]);
        }
      }
    case Array(items) =>
      MissingMembers(target.items, items);
    case _ =>
  }

  /** Nothing changed exactly when the target already held the source; then the result is the target. */
  lemma {:induction false} MergeUnchangedExactly(target: Json, source: Json)
    requires Merge(target, source).Some?
    ensures var m := Merge(target, source).value;
            (m.changed <==> !Within(source, target)) && (!m.changed ==> m.value == target)
    decreases source
  {
    match source
    case Object(fields) =>
      var m := Merge(target, source).value;
      forall k | k in fields && k in target.fields
        ensures Merge(target.fields[k], fields[k]).value.changed <==> !Within(fields[k], target.fields[k])
      {
        MergeUnchangedExactly(target.fields[k], fields[k]);
      }
      if !m.changed {
        forall k | k in m.value.fields
          ensures k in target.fields && m.value.fields[k] == target.fields[k]
        {
        }
        assert m.value.fields == target.fields;
      }
    case Array(items) =>
      MissingMembers(target.items, items);
      var missing := Missing(target.items, items);
      if missing == [] {
        assert target.items + missing == target.items;
      } else {
        assert missing[0] in missing;
      }
    case _ =>
  }

  /** Any common upper bound makes the merge succeed, and holds everything the merge holds. */
  lemma {:induction false} MergeIsLeast(target: Json, source: Json, bound: Json)
    requires Within(target, bound) && Within(source, bound)
    ensures Merge(target, source).Some? && Within(Merge(target, source).value.value, bound)
    decreases source
  {
    match source
    case Object(fields) =>
      forall k | k in fields && k in target.fields
        ensures Merge(target.fields[k], fields[k]).Some?
        ensures Within(Merge(target.fields[k], fields[k]).value.value, bound.fields[k])
      {
        MergeIsLeast(target.fields[k], fields[k], bound.fields[k]);
      }
      var merged := Merge(target, source).value.value;
      forall k | k in merged.fields
        ensures k in bound.fields && Within(merged.fields[k], bound.fields[k])
      {
      }
    case Array(items) =>
      MissingMembers(target.items, items);
      var merged := Merge(target, source).value.value.items;
      forall i | 0 <= i < |merged|
        ensures merged[i] in bound.items
      {
        if i >= |target.items| {
          assert merged[i] in Missing(target.items, items);
        }
      }
    case _ =>
  }

  ghost predicate CommonBound(a: Json, b: Json, bound: Json) {
    Within(a, bound) && Within(b, bound)
  }

  /** The merge succeeds exactly when the two values have a common upper bound, and is then the least one. */
  lemma MergeIsLeastUpperBound(target: Json, source: Json)
    ensures Merge(target, source).Some? <==> exists bound :: CommonBound(target, source, bound)
    ensures Merge(target, source).Some? ==>
              var m := Merge(target, source).value.value;
              CommonBound(target, source, m) && forall bound :: CommonBound(target, source, bound) ==> Within(m, bound)
  {
    if Merge(target, source).Some? {
      MergeIsUpperBound(target, source);
      assert CommonBound(target, source, Merge(target, source).value.value);
    }
    forall bound | CommonBound(target, source, bound)
      ensures Merge(target, source).Some? && Within(Merge(target, source).value.value, bound)
    {
      MergeIsLeast(target, source, bound);
    }
  }

  /** Merging the same fragment again changes nothing. */
  lemma MergeIdempotent(target: Json, source: Json)
    requires Merge(target, source).Some?
    ensures var m := Merge(target, source).value.value; Merge(m, source) == Some(Merged(m, false))
  {
    var m := Merge(target, source).value.value;
    MergeIsUpperBound(target, source);
    WithinReflexive(m);
    MergeIsLeast(m, source, m);
    MergeUnchangedExactly(m, source);
  }

  ghost predicate Equivalent(a: Json, b: Json) {
    Within(a, b) && Within(b, a)
  }

  function MergeBoth(target: Json, first: Json, second: Json): Option<Json> {
    var m := Merge(target, first);
    if m.None? then None
    else if Merge(m.value.value, second).None? then None
    else Some(Merge(m.value.value, second).value.value)
  }

  /** Two fragments merge in either order or in neither, and both orders hold the same things. */
  lemma MergeOrderIrrelevant(target: Json, first: Json, second: Json)
    ensures MergeBoth(target, first, second).Some? <==> MergeBoth(target, second, first).Some?
    ensures MergeBoth(target, first, second).Some? ==>
              Equivalent(MergeBoth(target, first, second).value, MergeBoth(target, second, first).value)
  {
    if MergeBoth(target, first, second).Some? {
      MergeBothBounds(target, first, second);
      MergeBothLeast(target, second, first, MergeBoth(target, first, second).value);
    }
    if MergeBoth(target, second, first).Some? {
      MergeBothBounds(target, second, first);
      MergeBothLeast(target, first, second, MergeBoth(target, second, first).value);
    }
  }

  lemma MergeBothBounds(target: Json, first: Json, second: Json)
    requires MergeBoth(target, first, second).Some?
    ensures var m := MergeBoth(target, first, second).value; Within(target, m) && Within(first, m) && Within(second, m)
  {
    var m1 := Merge(target, first).value.value;
    var m2 := MergeBoth(target, first, second).value;
    MergeIsUpperBound(target, first);
    MergeIsUpperBound(m1, second);
    WithinTransitive(target, m1, m2);
    WithinTransitive(first, m1, m2);
  }

  lemma MergeBothLeast(target: Json, first: Json, second: Json, bound: Json)
    requires Within(target, bound) && Within(first, bound) && Within(second, bound)
    ensures MergeBoth(target, first, second).Some? && Within(MergeBoth(target, first, second).value, bound)
  {
    MergeIsLeast(target, first, bound);
    MergeIsLeast(Merge(target, first).value.value, second, bound);
  }

  // ---------------------------------------------------------------- values a codec can represent

  /** Every number, text and key of the value is one the codec represents. */
  predicate Legal(v: Json, number: string -> bool, text: string -> bool) {
    match v
    case Number(n) => number(n)
    case Text(s) => text(s)
    case Array(items) => forall i :: 0 <= i < |items| ==> Legal(items[i], number, text)
    case Object(fields) => forall k :: k in fields ==> text(k) && Legal(fields[k], number, text)
    case _ => true
  }

  /** The merge makes up no number, text or key. */
  lemma {:induction false} MergeKeepsLegal(target: Json, source: Json, number: string -> bool, text: string -> bool)
    requires Legal(target, number, text) && Legal(source, number, text) && Merge(target, source).Some?
    ensures Legal(Merge(target, source).value.value, number, text)
    decreases source
  {
    match source
    case Object(fields) =>
      forall k | k in fields && k in target.fields
        ensures Legal(Merge(target.fields[k], fields[k]).value.value, number, text)
      {
        assert Merge(target.fields[k], fields[k]).Some?;
        MergeKeepsLegal(target.fields[k], fields[k], number, text);
      }
    case Array(items) =>
      MissingMembers(target.items, items);
      var merged := Merge(target, source).value.value.items;
      forall i | 0 <= i < |merged|
        ensures Legal(merged[i], number, text)
      {
        assert merged[i] in target.items || merged[i] in Missing(target.items, items);
      }
    case _ =>
  }

  // ---------------------------------------------------------------- the loops

  /** The field map after the keys in `done` have been merged. */
  ghost function FieldsAfter(target: map<string, Json>, fields: map<string, Json>, done: set<string>): map<string, Json>
    requires done <= fields.Keys
  {
    map k | k in target.Keys + done ::
      if k !in done then target[k]
      else if k !in target then fields[k]
      else MergedField(target[k], Merge(target[k], fields[k]))
  }

  ghost predicate ChangedAfter(target: map<string, Json>, fields: map<string, Json>, done: set<string>)
    requires done <= fields.Keys
  {
    exists k :: k in done && FieldChanges(target, fields, k)
  }

  /** What merging one more key does to the field map. */
  lemma FieldStep(target: map<string, Json>, fields: map<string, Json>, done: set<string>, key: string)
    requires done <= fields.Keys && key in fields && key !in done
    ensures var before := FieldsAfter(target, fields, done);
            && (key in before <==> key in target) && (key in target ==> before[key] == target[key])
            && (key !in target ==> FieldsAfter(target, fields, done + {key}) == before[key := fields[key]])
            && (key in target ==> FieldsAfter(target, fields, done + {key})
                                  == before[key := MergedField(target[key], Merge(target[key], fields[key]))])
            && (ChangedAfter(target, fields, done + {key}) <==>
                ChangedAfter(target, fields, done) || FieldChanges(target, fields, key))
  {
    hide Merge;
  }

  ghost predicate FieldChanges(target: map<string, Json>, fields: map<string, Json>, key: string)
    requires key in fields
  {
    key !in target || (Merge(target[key], fields[key]).Some? && Merge(target[key], fields[key]).value.changed)
  }

  lemma FieldsAtEnds(target: map<string, Json>, fields: map<string, Json>)
    ensures FieldsAfter(target, fields, {}) == target && !ChangedAfter(target, fields, {})
    ensures (forall k :: k in fields && k in target ==> Merge(target[k], fields[k]).Some?) ==>
              Merge(Object(target), Object(fields)) ==
              Some(Merged(Object(FieldsAfter(target, fields, fields.Keys)), ChangedAfter(target, fields, fields.Keys)))
    ensures (exists k :: k in fields && k in target && Merge(target[k], fields[k]).None?) ==>
              Merge(Object(target), Object(fields)).None?
  {
  }

  /** The recursive merge with its loops over object keys, in whatever order, and array elements. */
  method MergeValues(target: Json, source: Json) returns (result: Option<Merged>)
    ensures result == Merge(target, source)
    decreases source, 1
  {
    match source {
      case Object(fields) =>
        if !target.Object? {
          return None;
        }
        result := MergeFields(target, source);
      case Array(items) =>
        if !target.Array? {
          return None;
        }
        var merged, changed := MergeItems(target.items, items);
        return Some(Merged(Array(merged), changed));
      case _ =>
        if target == source {
          return Some(Merged(target, false));
        }
        return None;
    }
  }

  method MergeFields(target: Json, source: Json) returns (result: Option<Merged>)
    requires target.Object? && source.Object?
    ensures result == Merge(target, source)
    decreases source, 0
  {
    hide FieldsAfter, ChangedAfter, Merge;
    var merged, fields, changed := target.fields, source.fields, false;
    FieldsAtEnds(target.fields, fields);
    var todo := fields.Keys;
    assert fields.Keys - todo == {};
    while todo != {}
      invariant todo <= fields.Keys
      invariant merged == FieldsAfter(target.fields, fields, fields.Keys - todo)
      invariant changed == ChangedAfter(target.fields, fields, fields.Keys - todo)
      invariant forall k :: k in fields.Keys - todo && k in target.fields ==> Merge(target.fields[k], fields[k]).Some?
    {
      var key :| key in todo;
      ghost var done := fields.Keys - todo;
      FieldStep(target.fields, fields, done, key);
      todo := todo - {key};
      assert fields.Keys - todo == done + {key};
      if key !in merged {
        merged := merged[key := fields[key]];
        changed := true;
        continue;
      }
      var child := MergeValues(merged[key], fields[key]);
      if child.None? {
        return None;
      }
      if child.value.changed {
        merged := merged[key := child.value.value];
        changed := true;
      }
    }
    assert fields.Keys - todo == fields.Keys;
    return Some(Merged(Object(merged), changed));
  }

  /** The array loop: elements not there yet are appended. */
  method MergeItems(target: seq<Json>, items: seq<Json>) returns (merged: seq<Json>, changed: bool)
    ensures merged == target + Missing(target, items)
    ensures changed == (Missing(target, items) != [])
  {
    merged, changed := target, false;
    for i := 0 to |items|
      invariant merged == target + Missing(target, items[..i])
      invariant changed == (Missing(target, items[..i]) != [])
    {
      assert items[..i + 1][..i] == items[..i];
      if items[i] in merged {
        continue;
      }
      merged := merged + [items[i]];
      changed := true;
    }
    assert items[..|items|] == items;
  }
}
