/**
 Walking from a plan to its root (scripts/awm-feature-plan-validate.py, lines 122-135).
 The parent key is the trimmed text of parent_plan_key, "" when there is none.
 */
module PlanChain {
  import opened Wrappers

  datatype Plan = Plan(key: string, parent: string)

  datatype Failure = Cycle(key: string) | MissingParent(key: string)

  type Store = map<string, Plan>

  ghost predicate ValidStore(store: Store) {
    forall k :: k in store ==> store[k].key == k
  }

  /** A climb, leaf first: every next plan is the stored parent of the one before. */
  ghost predicate Climb(store: Store, start: Plan, chain: seq<Plan>) {
    && chain != [] && chain[0] == start
    && forall i :: 0 <= i < |chain| - 1 ==> chain[i].parent != "" && chain[i].parent in store && chain[i + 1] == store[chain[i].parent]
  }

  ghost predicate DistinctKeys(chain: seq<Plan>) {
    forall i, j :: 0 <= i < j < |chain| ==> chain[i].key != chain[j].key
  }

  function Reverse(chain: seq<Plan>): (r: seq<Plan>)
    ensures |r| == |chain| && forall i :: 0 <= i < |r| ==> r[i] == chain[|chain| - 1 - i]
  {
    seq(|chain|, i requires 0 <= i < |chain| => chain[|chain| - 1 - i])
  }

  /** A root-first chain of distinct plans: each the parent of the next, the first without a parent. */
  ghost predicate RootFirst(store: Store, start: Plan, chain: seq<Plan>) {
    && chain != [] && chain[|chain| - 1] == start && chain[0].parent == "" && DistinctKeys(chain)
    && forall i :: 0 < i < |chain| ==> chain[i].parent == chain[i - 1].key && chain[i].parent in store
  }

  ghost predicate LeadsToRoot(store: Store, start: Plan, chain: seq<Plan>) {
    Climb(store, start, chain) && chain[|chain| - 1].parent == ""
  }

  ghost predicate LeadsNowhere(store: Store, start: Plan, climb: seq<Plan>, key: string) {
    Climb(store, start, climb) && climb[|climb| - 1].parent == key && key != "" && key !in store
  }

  ghost predicate LeadsBack(store: Store, start: Plan, climb: seq<Plan>, key: string) {
    Climb(store, start, climb) && climb[|climb| - 1].parent == key && exists i :: 0 <= i < |climb| && climb[i].key == key
  }

  /** build_chain; it stops because every turn visits a stored plan it has not seen. */
  method BuildChain(store: Store, start: Plan) returns (result: Result<seq<Plan>, Failure>)
    requires ValidStore(store) && start.key in store && store[start.key] == start
    ensures result.Ok? <==> exists climb :: LeadsToRoot(store, start, climb)
    ensures result.Ok? ==> RootFirst(store, start, result.value)
    ensures result.Err? && result.error.MissingParent? ==>
              exists climb :: LeadsNowhere(store, start, climb, result.error.key)
    ensures result.Err? && result.error.Cycle? ==>
              exists climb :: LeadsBack(store, start, climb, result.error.key)
  {
    hide Climb, DistinctKeys, Stored, KeySet, RootFirst, LeadsBack, LeadsNowhere;
    var chain := [start];
    var seen := {start.key};
    var current := start;
    StartOfClimb(store, start);
    while current.parent != ""
      invariant chain != [] && chain[|chain| - 1] == current && Climb(store, start, chain)
      invariant DistinctKeys(chain) && Stored(store, chain) && seen == KeySet(chain) <= store.Keys
      decreases |store.Keys - seen|
    {
      var parentKey := current.parent;
      if parentKey in seen {
        ComesBack(store, start, chain, parentKey);
        return Err(Cycle(parentKey));
      }
      if parentKey !in store {
        MissingNeverEnds(store, start, chain);
        return Err(MissingParent(parentKey));
      }
      var parent := store[parentKey];
      ExtendClimb(store, start, chain, parent);
      chain := chain + [parent];
      assert store.Keys - (seen + {parentKey}) == (store.Keys - seen) - {parentKey};
      seen := seen + {parentKey};
      current := parent;
    }
    assert LeadsToRoot(store, start, chain);
    ReversedIsRootFirst(store, start, chain);
    return Ok(Reverse(chain));
  }

  function KeySet(chain: seq<Plan>): set<string> {
    set i | 0 <= i < |chain| :: chain[i].key
  }

  ghost predicate Stored(store: Store, chain: seq<Plan>) {
    forall i :: 0 <= i < |chain| ==> chain[i].key in store && store[chain[i].key] == chain[i]
  }

  lemma StartOfClimb(store: Store, start: Plan)
    requires start.key in store && store[start.key] == start
    ensures Climb(store, start, [start]) && DistinctKeys([start]) && Stored(store, [start]) && KeySet([start]) == {start.key}
  {
  }

  lemma ExtendClimb(store: Store, start: Plan, chain: seq<Plan>, parent: Plan)
    requires ValidStore(store) && Climb(store, start, chain) && DistinctKeys(chain) && Stored(store, chain)
    requires var k := chain[|chain| - 1].parent; k != "" && k in store && parent == store[k] && k !in KeySet(chain)
    ensures var longer := chain + [parent];
            && Climb(store, start, longer) && DistinctKeys(longer) && Stored(store, longer)
            && KeySet(longer) == KeySet(chain) + {parent.key}
  {
    var longer := chain + [parent];
    assert longer[|chain|] == parent;
    forall k | k in KeySet(chain)
      ensures k in KeySet(longer)
    {
      var i :| 0 <= i < |chain| && chain[i].key == k;
      assert longer[i] == chain[i];
    }
    forall i | 0 <= i < |chain|
      ensures chain[i].key != parent.key
    {
      assert chain[i].key in KeySet(chain);
    }
  }

  lemma ComesBack(store: Store, start: Plan, chain: seq<Plan>, key: string)
    requires Climb(store, start, chain) && Stored(store, chain) && chain[|chain| - 1].parent == key != "" && key in KeySet(chain)
    ensures LeadsBack(store, start, chain, key) && forall climb :: !LeadsToRoot(store, start, climb)
  {
    var i :| 0 <= i < |chain| && chain[i].key == key;
    CycleNeverEnds(store, start, chain, i);
  }

  lemma ReversedIsRootFirst(store: Store, start: Plan, chain: seq<Plan>)
    requires LeadsToRoot(store, start, chain) && DistinctKeys(chain) && Stored(store, chain) && ValidStore(store)
    ensures RootFirst(store, start, Reverse(chain))
  {
    var rooted, n := Reverse(chain), |chain|;
    forall i | 0 < i < n
      ensures rooted[i].parent == rooted[i - 1].key && rooted[i].parent in store
    {
      assert chain[n - 1 - i + 1] == store[chain[n - 1 - i].parent];
    }
  }

  /** Climbs are determined step by step. */
  lemma {:induction false} ClimbsAgree(store: Store, start: Plan, a: seq<Plan>, b: seq<Plan>, i: nat)
    requires Climb(store, start, a) && Climb(store, start, b) && i < |a| && i < |b|
    ensures a[i] == b[i]
  {
    if i > 0 {
      ClimbsAgree(store, start, a, b, i - 1);
      assert a[i - 1 + 1] == store[a[i - 1].parent] && b[i - 1 + 1] == store[b[i - 1].parent];
    }
  }

  lemma MissingNeverEnds(store: Store, start: Plan, chain: seq<Plan>)
    requires Climb(store, start, chain)
    requires var last := chain[|chain| - 1].parent; last != "" && last !in store
    ensures LeadsNowhere(store, start, chain, chain[|chain| - 1].parent)
    ensures forall climb :: !LeadsToRoot(store, start, climb)
  {
    forall climb
      ensures !LeadsToRoot(store, start, climb)
    {
      if LeadsToRoot(store, start, climb) {
        var n := if |climb| < |chain| then |climb| - 1 else |chain| - 1;
        ClimbsAgree(store, start, climb, chain, n);
      }
    }
  }

  /** Once a climb comes back to a plan, no climb ends. */
  lemma CycleNeverEnds(store: Store, start: Plan, chain: seq<Plan>, i: nat)
    requires Climb(store, start, chain) && i < |chain|
    requires chain[|chain| - 1].parent == chain[i].key != ""
    requires chain[i].key in store && store[chain[i].key] == chain[i]
    ensures forall climb :: !LeadsToRoot(store, start, climb)
  {
    forall climb
      ensures !LeadsToRoot(store, start, climb)
    {
      if Climb(store, start, climb) {
        InsideCycle(store, start, chain, i, climb, |climb| - 1);
      }
    }
  }

  lemma {:induction false} InsideCycle(store: Store, start: Plan, chain: seq<Plan>, i: nat, climb: seq<Plan>, k: nat)
    requires Climb(store, start, chain) && i < |chain| && Climb(store, start, climb) && k < |climb|
    requires chain[|chain| - 1].parent == chain[i].key != ""
    requires chain[i].key in store && store[chain[i].key] == chain[i]
    ensures exists j :: 0 <= j < |chain| && climb[k] == chain[j] && chain[j].parent != ""
  {
    if k < |chain| {
      ClimbsAgree(store, start, chain, climb, k);
      assert climb[k] == chain[k] && chain[k].parent != "";
    } else {
      InsideCycle(store, start, chain, i, climb, k - 1);
      var j :| 0 <= j < |chain| && climb[k - 1] == chain[j] && chain[j].parent != "";
      assert climb[k - 1 + 1] == store[climb[k - 1].parent];
      if j == |chain| - 1 {
        assert climb[k] == chain[i];
        assert i < |chain| - 1 ==> chain[i].parent != "";
      } else {
        assert climb[k] == chain[j + 1];
        assert j + 1 < |chain| - 1 ==> chain[j + 1].parent != "";
      }
    }
  }
}
