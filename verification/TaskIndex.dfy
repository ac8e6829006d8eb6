/**
 The board's task index and the descendant walk (web/static/app.js, lines 115-134 and 672-688).

 The walk's queue is the very list that the index keeps for the task, so collecting descendants
 grows the index while reading it.  Lists are objects here, so that this sharing is part of the model.
 */
module TaskIndex {

  /** A board task; "" stands for a missing key or parent. */
  datatype Task = Task(key: string, parent: string)

  type Index = map<string, seq<nat>>

  // ---------------------------------------------------------------- reachability

  function Kids(index: Index, key: string): seq<nat> {
    if key in index then index[key] else []
  }

  /** One or more child steps: from the key to path[0], and from each task to the next. */
  ghost predicate IsPath(tasks: seq<Task>, index: Index, key: string, path: seq<nat>) {
    && path != [] && path[0] in Kids(index, key)
    && (forall i :: 0 <= i < |path| ==> path[i] < |tasks|)
    && (forall i :: 0 <= i < |path| - 1 ==> path[i + 1] in Kids(index, tasks[path[i]].key))
  }

  ghost predicate Reachable(tasks: seq<Task>, index: Index, key: string, j: nat) {
    exists path :: IsPath(tasks, index, key, path) && path[|path| - 1] == j
  }

  ghost predicate WellIndexed(tasks: seq<Task>, index: Index) {
    forall k, i :: k in index && 0 <= i < |index[k]| ==> index[k][i] < |tasks|
  }

  lemma StepReachable(tasks: seq<Task>, index: Index, key: string, j: nat)
    requires j in Kids(index, key) && j < |tasks|
    ensures Reachable(tasks, index, key, j)
  {
    assert IsPath(tasks, index, key, [j]);
  }

  lemma ExtendReachable(tasks: seq<Task>, index: Index, key: string, v: nat, j: nat)
    requires Reachable(tasks, index, key, v) && v < |tasks| && Reachable(tasks, index, tasks[v].key, j)
    ensures Reachable(tasks, index, key, j)
  {
    var p :| IsPath(tasks, index, key, p) && p[|p| - 1] == v;
    var q :| IsPath(tasks, index, tasks[v].key, q) && q[|q| - 1] == j;
    var path := p + q;
    forall i | 0 <= i < |path| - 1
      ensures path[i + 1] in Kids(index, tasks[path[i]].key)
    {
      if i >= |p| {
        assert path[i] == q[i - |p|] && path[i + 1] == q[i - |p| + 1];
      }
    }
    assert IsPath(tasks, index, key, path);
  }

  /** A set that holds the task's children and is closed under children holds everything reachable. */
  lemma {:induction false} ClosedHolds(tasks: seq<Task>, index: Index, key: string, closed: set<nat>, path: seq<nat>)
    requires IsPath(tasks, index, key, path)
    requires forall j :: j in Kids(index, key) ==> j in closed
    requires forall v, j :: v in closed && v < |tasks| && j in Kids(index, tasks[v].key) ==> j in closed
    ensures path[|path| - 1] in closed
  {
    if |path| > 1 {
      var front := path[..|path| - 1];
      assert IsPath(tasks, index, key, front);
      ClosedHolds(tasks, index, key, closed, front);
    }
  }

  /** The grown index: the list of one key extended by tasks reachable from that key. */
  ghost predicate GrownBy(tasks: seq<Task>, index: Index, index': Index, key: string) {
    && index'.Keys == index.Keys
    && (forall k :: k in index && k != key ==> index'[k] == index[k])
    && (key in index ==> index[key] <= index'[key] && forall j :: j in index'[key] ==> Reachable(tasks, index, key, j))
  }

  lemma {:induction false} GrownPath(tasks: seq<Task>, index: Index, index': Index, key: string, k: string, path: seq<nat>)
    requires GrownBy(tasks, index, index', key) && IsPath(tasks, index', k, path)
    ensures Reachable(tasks, index, k, path[|path| - 1])
  {
    var n := |path| - 1;
    if n == 0 {
      if k != key {
        StepReachable(tasks, index, k, path[0]);
      }
    } else {
      var front := path[..n];
      assert IsPath(tasks, index', k, front);
      GrownPath(tasks, index, index', key, k, front);
      var v := path[n - 1];
      assert front[|front| - 1] == v;
      assert path[n - 1 + 1] in Kids(index', tasks[v].key);
      if tasks[v].key != key {
        StepReachable(tasks, index, tasks[v].key, path[n]);
      }
      ExtendReachable(tasks, index, k, v, path[n]);
    }
  }

  ghost predicate SameReach(tasks: seq<Task>, index: Index, index': Index) {
    forall k, j :: Reachable(tasks, index', k, j) <==> Reachable(tasks, index, k, j)
  }

  /** Growing a key's list by its own descendants changes no reachability. */
  lemma GrowthKeepsReach(tasks: seq<Task>, index: Index, index': Index, key: string)
    requires GrownBy(tasks, index, index', key)
    ensures SameReach(tasks, index, index')
  {
    forall k, j
      ensures Reachable(tasks, index', k, j) <==> Reachable(tasks, index, k, j)
    {
      if Reachable(tasks, index', k, j) {
        var path :| IsPath(tasks, index', k, path) && path[|path| - 1] == j;
        GrownPath(tasks, index, index', key, k, path);
      }
      if Reachable(tasks, index, k, j) {
        var path :| IsPath(tasks, index, k, path) && path[|path| - 1] == j;
        forall q, x | x in Kids(index, q)
          ensures x in Kids(index', q)
        {
        }
        assert IsPath(tasks, index', k, path);
      }
    }
  }

  /** The result of a walk: everything reachable, each once. */
  ghost predicate Descendants(tasks: seq<Task>, index: Index, key: string, result: seq<nat>) {
    && (forall i, j :: 0 <= i < j < |result| ==> result[i] != result[j])
    && (forall j :: j in result <==> Reachable(tasks, index, key, j))
  }

  lemma {:induction false} BoundedSet(s: set<nat>, n: nat)
    requires forall x :: x in s ==> x < n
    ensures |s| <= n
  {
    if n == 0 {
      assert s == {};
    } else if n - 1 in s {
      BoundedSet(s - {n - 1}, n - 1);
    } else {
      BoundedSet(s, n - 1);
    }
  }

  // ---------------------------------------------------------------- building the index

  /** The positions of the tasks whose parent is the key, ascending. */
  function ChildrenList(tasks: seq<Task>, key: string): seq<nat> {
    if tasks == [] then []
    else
      var n := |tasks| - 1;
      ChildrenList(tasks[..n], key) + if tasks[n].parent == key then [n] else []
  }

  function ParentKeys(tasks: seq<Task>): set<string> {
    if tasks == [] then {} else ParentKeys(tasks[..|tasks| - 1]) + ({tasks[|tasks| - 1].parent} - {""})
  }

  function BuiltIndex(tasks: seq<Task>): Index {
    map k | k in ParentKeys(tasks) :: ChildrenList(tasks, k)
  }

  function LastByKey(tasks: seq<Task>): map<string, nat> {
    if tasks == [] then map[]
    else
      var n := |tasks| - 1;
      var rest := LastByKey(tasks[..n]);
      if tasks[n].key != "" then rest[tasks[n].key := n] else rest
  }

  /** A key leads to the last task that has it. */
  lemma {:induction false} LastByKeyExactly(tasks: seq<Task>, key: string, i: nat)
    ensures key in LastByKey(tasks) && LastByKey(tasks)[key] == i <==>
              key != "" && i < |tasks| && tasks[i].key == key && forall j :: i < j < |tasks| ==> tasks[j].key != key
  {
    if tasks != [] {
      var n := |tasks| - 1;
      LastByKeyExactly(tasks[..n], key, i);
      assert forall j :: 0 <= j < n ==> tasks[..n][j] == tasks[j];
      if tasks[n].key != key && i < n && tasks[..n][i].key == key && forall j :: i < j < n ==> tasks[..n][j].key != key {
        assert forall j :: i < j < |tasks| ==> j == n || tasks[j] == tasks[..n][j];
      }
    }
  }

  lemma {:induction false} ChildrenListMeaning(tasks: seq<Task>, key: string)
    ensures forall i: nat :: i in ChildrenList(tasks, key) <==> i < |tasks| && tasks[i].parent == key
    ensures key !in ParentKeys(tasks) && key != "" ==> ChildrenList(tasks, key) == []
    ensures "" !in ParentKeys(tasks)
  {
    if tasks != [] {
      ChildrenListMeaning(tasks[..|tasks| - 1], key);
    }
  }

  /** A chain of parent links up to the key, the key and every link being non-empty. */
  ghost predicate ParentChain(tasks: seq<Task>, key: string, path: seq<nat>) {
    && path != [] && (forall i :: 0 <= i < |path| ==> path[i] < |tasks|)
    && key != "" && tasks[path[0]].parent == key
    && (forall i :: 0 <= i < |path| - 1 ==>
          tasks[path[i]].key != "" && tasks[path[i + 1]].parent == tasks[path[i]].key)
  }

  /** In the freshly built index reachability is descent along parent links. */
  lemma BuiltReachability(tasks: seq<Task>, key: string, path: seq<nat>)
    ensures IsPath(tasks, BuiltIndex(tasks), key, path) <==> ParentChain(tasks, key, path)
  {
    hide BuiltIndex, Kids;
    var index := BuiltIndex(tasks);
    if path != [] && forall i :: 0 <= i < |path| ==> path[i] < |tasks| {
      BuiltKids(tasks, key, path[0]);
      forall i | 0 <= i < |path| - 1
        ensures path[i + 1] in Kids(index, tasks[path[i]].key)
                <==> tasks[path[i]].key != "" && tasks[path[i + 1]].parent == tasks[path[i]].key
      {
        BuiltKids(tasks, tasks[path[i]].key, path[i + 1]);
      }
      if ParentChain(tasks, key, path) {
        assert forall i :: 0 <= i < |path| - 1 ==> path[i + 1] in Kids(index, tasks[path[i]].key);
        assert IsPath(tasks, index, key, path);
      }
      if IsPath(tasks, index, key, path) {
        forall i | 0 <= i < |path| - 1
          ensures tasks[path[i]].key != "" && tasks[path[i + 1]].parent == tasks[path[i]].key
        {
          assert path[i + 1] in Kids(index, tasks[path[i]].key);
        }
        assert ParentChain(tasks, key, path);
      }
    }
  }

  lemma BuiltKids(tasks: seq<Task>, k: string, j: nat)
    requires j < |tasks|
    ensures j in Kids(BuiltIndex(tasks), k) <==> k != "" && tasks[j].parent == k
  {
    ChildrenListMeaning(tasks, k);
  }

  lemma BuiltWellIndexed(tasks: seq<Task>)
    ensures WellIndexed(tasks, BuiltIndex(tasks))
  {
    forall k, i | k in BuiltIndex(tasks) && 0 <= i < |BuiltIndex(tasks)[k]|
      ensures BuiltIndex(tasks)[k][i] < |tasks|
    {
      ChildrenListMeaning(tasks, k);
      assert BuiltIndex(tasks)[k][i] in ChildrenList(tasks, k);
    }
  }

  // ---------------------------------------------------------------- the board

  class IndexList {
    var items: seq<nat>

    constructor (items: seq<nat>)
      ensures this.items == items
    {
      this.items := items;
    }
  }

  class Board {
    var tasks: seq<Task>
    var tasksByKey: map<string, nat>
    var childrenOf: map<string, IndexList>

    ghost function Lists(): set<object>
      reads this
    {
      set k | k in childrenOf :: childrenOf[k]
    }

    ghost function Children(): Index
      reads this, Lists()
    {
      map k | k in childrenOf :: childrenOf[k].items
    }

    ghost predicate NotShared()
      reads this
    {
      forall k, l :: k in childrenOf && l in childrenOf && k != l ==> childrenOf[k] != childrenOf[l]
    }

    /** No two keys share a list, and lists point at tasks. */
    ghost predicate Valid()
      reads this, Lists()
    {
      NotShared() && WellIndexed(tasks, Children())
    }

    constructor ()
      ensures Valid() && tasks == [] && fresh(Lists())
    {
      tasks, tasksByKey, childrenOf := [], map[], map[];
    }

    /** Pushes a position onto the list of a key, making the list first when there is none. */
    method AddChild(key: string, i: nat)
      requires NotShared()
      modifies this`childrenOf, Lists()
      ensures NotShared() && fresh(Lists() - old(Lists()))
      ensures Children() == old(Children())[key := Kids(old(Children()), key) + [i]]
    {
      if key in childrenOf {
        var list := childrenOf[key];
        assert list in Lists();
        list.items := list.items + [i];
      } else {
        var list := new IndexList([i]);
        assert forall k :: k in childrenOf ==> childrenOf[k] in Lists();
        childrenOf := childrenOf[key := list];
        assert Children()[key] == [] + [i];
      }
    }

    /** buildIndex: every list it makes is new. */
    method BuildIndex(allTasks: seq<Task>)
      modifies this
      ensures Valid() && fresh(Lists())
      ensures tasks == allTasks && tasksByKey == LastByKey(allTasks) && Children() == BuiltIndex(allTasks)
    {
      hide BuiltIndex, Kids, WellIndexed;
      BuiltFromNothing();
      tasks, tasksByKey, childrenOf := allTasks, map[], map[];
      for i := 0 to |allTasks|
        invariant tasks == allTasks && tasksByKey == LastByKey(allTasks[..i])
        invariant fresh(Lists()) && NotShared()
        invariant Children() == BuiltIndex(allTasks[..i])
      {
        var t := allTasks[i];
        assert allTasks[..i + 1][..i] == allTasks[..i];
        BuiltStep(allTasks[..i], t);
        assert |allTasks[..i]| == i;
        assert allTasks[..i + 1] == allTasks[..i] + [t];
        ghost var before := Children();
        if t.key != "" {
          tasksByKey := tasksByKey[t.key := i];
        }
        assert Children() == before;
        if t.parent != "" {
          AddChild(t.parent, i);
        }
      }
      assert allTasks[..|allTasks|] == allTasks;
      BuiltWellIndexed(allTasks);
    }

    /** collectDescendants: the queue is the task's own list and is pushed to while it is read. */
    method CollectDescendants(taskKey: string) returns (result: seq<nat>)
      requires Valid()
      modifies Lists()
      ensures Valid() && Lists() == old(Lists())
      ensures Descendants(tasks, old(Children()), taskKey, result)
      ensures GrownBy(tasks, old(Children()), Children(), taskKey)
      ensures SameReach(tasks, old(Children()), Children())
    {
      ghost var index := Children();
      if taskKey !in childrenOf {
        GrowthKeepsReach(tasks, index, index, taskKey);
        return [];
      }
      result := WalkQueue(taskKey, childrenOf[taskKey]);
      GrowthKeepsReach(tasks, index, Children(), taskKey);
    }

    method WalkQueue(taskKey: string, queue: IndexList) returns (result: seq<nat>)
      requires Valid() && taskKey in childrenOf && childrenOf[taskKey] == queue
      modifies queue
      ensures Valid() && Descendants(tasks, old(Children()), taskKey, result)
      ensures GrownBy(tasks, old(Children()), Children(), taskKey)
    {
      hide Frontier, GrownBy, Descendants, WellIndexed, Reachable;
      ghost var index := Children();
      result := [];
      var visited: set<nat> := {};
      var i := 0;
      StartOfWalk(tasks, index, taskKey);
      while i < |queue.items|
        invariant i <= |queue.items|
        invariant Children() == index[taskKey := queue.items]
        invariant Frontier(tasks, index, taskKey, queue.items, i, visited) && index[taskKey] <= queue.items
        invariant forall j :: j in result <==> j in visited
        invariant forall a, b :: 0 <= a < b < |result| ==> result[a] != result[b]
        decreases |tasks| - |visited|, |queue.items| - i
      {
        FrontierBounds(tasks, index, taskKey, queue.items, i, visited);
        var ci := queue.items[i];
        if ci in visited {
          FrontierSkip(tasks, index, taskKey, queue.items, i, visited);
          i := i + 1;
          continue;
        }
        ghost var before, pushed := queue.items, Kids(Children(), tasks[ci].key);
        FrontierVisit(tasks, index, taskKey, before, i, visited, pushed);
        visited := visited + {ci};
        result := result + [ci];
        PushChildren(taskKey, queue, tasks[ci].key);
        i := i + 1;
      }
      EndOfWalk(tasks, index, taskKey, queue.items, visited, result);
    }

    /** Pushes the list of a child onto the queue, which is itself the list of the walk's task. */
    method PushChildren(taskKey: string, queue: IndexList, childKey: string)
      requires NotShared() && taskKey in childrenOf && childrenOf[taskKey] == queue
      modifies queue
      ensures NotShared() && Children() == old(Children())[taskKey := queue.items]
      ensures queue.items == old(queue.items) + Kids(old(Children()), childKey)
    {
      if childKey in childrenOf {
        queue.items := queue.items + childrenOf[childKey].items;
      }
    }

    /** Any number of walks, one after the other: each is exact for the index as it was built. */
    method CollectAll(keys: seq<string>) returns (results: seq<seq<nat>>)
      requires Valid()
      modifies Lists()
      ensures Valid() && |results| == |keys|
      ensures forall i :: 0 <= i < |keys| ==> Descendants(tasks, old(Children()), keys[i], results[i])
      ensures SameReach(tasks, old(Children()), Children())
    {
      hide Descendants, GrownBy, WellIndexed, Reachable, SameReach;
      ghost var index := Children();
      results := [];
      SameReachReflexive(tasks, index);
      for i := 0 to |keys|
        invariant Valid() && Lists() == old(Lists()) && |results| == i
        invariant SameReach(tasks, index, Children())
        invariant forall j :: 0 <= j < i ==> Descendants(tasks, index, keys[j], results[j])
      {
        ghost var current := Children();
        var result := CollectDescendants(keys[i]);
        SameDescendants(tasks, index, current, keys[i], result);
        SameReachTransitive(tasks, index, current, Children());
        results := results + [result];
      }
    }
  }

  lemma SameReachReflexive(tasks: seq<Task>, index: Index)
    ensures SameReach(tasks, index, index)
  {
  }

  lemma SameReachTransitive(tasks: seq<Task>, a: Index, b: Index, c: Index)
    requires SameReach(tasks, a, b) && SameReach(tasks, b, c)
    ensures SameReach(tasks, a, c)
  {
  }

  lemma SameDescendants(tasks: seq<Task>, index: Index, index': Index, key: string, result: seq<nat>)
    requires SameReach(tasks, index, index') && Descendants(tasks, index', key, result)
    ensures Descendants(tasks, index, key, result)
  {
    hide Reachable;
    assert forall j :: Reachable(tasks, index', key, j) <==> Reachable(tasks, index, key, j);
  }

  lemma BuiltFromNothing()
    ensures BuiltIndex([]) == map[]
  {
  }

  lemma BuiltStep(tasks: seq<Task>, t: Task)
    ensures var a, b, n := BuiltIndex(tasks), BuiltIndex(tasks + [t]), |tasks|;
            b == if t.parent == "" then a else a[t.parent := Kids(a, t.parent) + [n]]
  {
    var all := tasks + [t];
    var a, b := BuiltIndex(tasks), BuiltIndex(all);
    assert all[..|tasks|] == tasks;
    assert ParentKeys(all) == ParentKeys(tasks) + ({t.parent} - {""});
    ChildrenListMeaning(tasks, t.parent);
    var c := if t.parent == "" then a else a[t.parent := Kids(a, t.parent) + [|tasks|]];
    forall k | k in b
      ensures k in c && b[k] == c[k]
    {
      assert ChildrenList(all, k) == ChildrenList(tasks, k) + if t.parent == k then [|tasks|] else [];
      if t.parent != k {
        assert ChildrenList(tasks, k) + [] == ChildrenList(tasks, k);
      }
    }
    assert b.Keys == c.Keys;
  }

  /** The walk's state: what is queued is reachable, and what was visited has its children queued. */
  ghost predicate Frontier(tasks: seq<Task>, index: Index, key: string, queue: seq<nat>, i: nat, visited: set<nat>) {
    && i <= |queue|
    && (forall j :: j in queue ==> j < |tasks| && Reachable(tasks, index, key, j))
    && (forall j :: j in visited <==> j in queue[..i])
    && (forall j :: j in Kids(index, key) ==> j in queue)
    && (forall v, j :: v in visited && v < |tasks| && j in Kids(index, tasks[v].key) ==> j in queue)
  }

  lemma StartOfWalk(tasks: seq<Task>, index: Index, key: string)
    requires WellIndexed(tasks, index) && key in index
    ensures Frontier(tasks, index, key, index[key], 0, {})
    ensures index == index[key := index[key]]
  {
    forall j | j in index[key]
      ensures Reachable(tasks, index, key, j) && j < |tasks|
    {
      var i :| 0 <= i < |index[key]| && index[key][i] == j;
      StepReachable(tasks, index, key, j);
    }
  }

  lemma FrontierBounds(tasks: seq<Task>, index: Index, key: string, queue: seq<nat>, i: nat, visited: set<nat>)
    requires Frontier(tasks, index, key, queue, i, visited)
    ensures i < |queue| ==> queue[i] < |tasks| && (queue[i] !in visited ==> |visited| + 1 <= |tasks|)
    ensures |visited| <= |tasks|
  {
    hide Reachable, Kids;
    forall j | j in visited
      ensures j < |tasks|
    {
      var a :| 0 <= a < |queue[..i]| && queue[..i][a] == j;
      assert j == queue[a] && j in queue;
    }
    BoundedSet(visited, |tasks|);
    if i < |queue| && queue[i] !in visited {
      assert queue[i] in queue;
      BoundedSet(visited + {queue[i]}, |tasks|);
    }
  }

  lemma FrontierSkip(tasks: seq<Task>, index: Index, key: string, queue: seq<nat>, i: nat, visited: set<nat>)
    requires Frontier(tasks, index, key, queue, i, visited) && i < |queue| && queue[i] in visited
    ensures Frontier(tasks, index, key, queue, i + 1, visited)
  {
    assert queue[..i + 1] == queue[..i] + [queue[i]];
  }

  /** Visiting a task and queueing the list of its key, which is the grown list when the keys coincide. */
  lemma FrontierVisit(tasks: seq<Task>, index: Index, key: string, queue: seq<nat>, i: nat, visited: set<nat>, pushed: seq<nat>)
    requires WellIndexed(tasks, index) && key in index
    requires Frontier(tasks, index, key, queue, i, visited) && i < |queue| && queue[i] < |tasks|
    requires pushed == Kids(index[key := queue], tasks[queue[i]].key)
    ensures Frontier(tasks, index, key, queue + pushed, i + 1, visited + {queue[i]})
  {
    var ci := queue[i];
    var childKey := tasks[ci].key;
    forall j | j in pushed
      ensures j < |tasks| && Reachable(tasks, index, key, j)
    {
      if childKey != key {
        var a :| 0 <= a < |index[childKey]| && index[childKey][a] == j;
        StepReachable(tasks, index, childKey, j);
        ExtendReachable(tasks, index, key, ci, j);
      }
    }
    assert (queue + pushed)[..i + 1] == queue[..i] + [ci];
  }

  lemma EndOfWalk(tasks: seq<Task>, index: Index, key: string, queue: seq<nat>, visited: set<nat>, result: seq<nat>)
    requires WellIndexed(tasks, index) && key in index && index[key] <= queue
    requires Frontier(tasks, index, key, queue, |queue|, visited)
    requires forall j :: j in result <==> j in visited
    requires forall a, b :: 0 <= a < b < |result| ==> result[a] != result[b]
    ensures Descendants(tasks, index, key, result)
    ensures GrownBy(tasks, index, index[key := queue], key) && WellIndexed(tasks, index[key := queue])
  {
    VisitedIsReachable(tasks, index, key, queue, visited);
    hide Reachable, Frontier;
    forall i | 0 <= i < |queue|
      ensures queue[i] < |tasks|
    {
      assert queue[i] in queue;
    }
  }

  lemma VisitedIsReachable(tasks: seq<Task>, index: Index, key: string, queue: seq<nat>, visited: set<nat>)
    requires Frontier(tasks, index, key, queue, |queue|, visited)
    ensures forall j :: j in visited <==> Reachable(tasks, index, key, j)
    ensures forall j :: j in queue ==> j < |tasks| && Reachable(tasks, index, key, j)
  {
    assert queue[..|queue|] == queue;
    forall j | Reachable(tasks, index, key, j)
      ensures j in visited
    {
      var path :| IsPath(tasks, index, key, path) && path[|path| - 1] == j;
      ClosedHolds(tasks, index, key, visited, path);
    }
  }
}
