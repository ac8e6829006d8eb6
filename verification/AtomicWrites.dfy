/**
 Crash-atomic file writes (internal/fswrite/fswrite.go) as a step protocol.

 Any number of writers run `Atomic` or `AtomicNew` against one disk.  Each system call is one
 step, steps of different writers interleave freely, every call may fail, and a crash is a
 writer (or all of them) taking no further step: what is proved of every reachable state is
 proved of every crash point.  `rename` and `link` are atomic; temporary names are fresh.
 */
module AtomicWrites {
  import opened Wrappers

  type Name = string

  datatype File = File(data: string, mode: nat)

  /** Names refer to inodes, inodes hold files: several names may share one inode. */
  datatype Disk = Disk(names: map<Name, nat>, inodes: map<nat, File>)

  datatype Kind = Replace | CreateNew

  /** One call: Atomic (Replace) or AtomicNew (CreateNew) with its resolved target and its temporary name. */
  datatype Job = Job(kind: Kind, target: Name, temp: Name, data: string, mode: nat)

  datatype Phase =
    | Start
    | Ready(mode: nat)
    | Opened(inode: nat, mode: nat)
    | Writing(inode: nat, mode: nat, written: nat)
    | Closed(inode: nat, mode: nat)
    | Leaving(inode: nat, mode: nat, ok: bool)
    | Finished(ok: bool)

  /** `commits` records the writers whose rename or link took effect, in order. */
  datatype State = State(disk: Disk, phases: seq<Phase>, commits: seq<nat>, owned: map<nat, nat>)

  datatype Action =
    | Begin
    | MakeTemp(inode: nat)
    | Chmod
    | WriteChunk(count: nat)
    | Close
    | Commit
    | Fault
    | RemoveTemp(removed: bool)

  const TEMP_MODE: nat := 0x180

  // ---------------------------------------------------------------- system calls

  function Unlink(d: Disk, name: Name): Disk {
    d.(names := d.names - {name})
  }

  function Rename(d: Disk, from: Name, to: Name): Disk
    requires from in d.names
  {
    if to in d.names && d.names[to] == d.names[from] then d
    else d.(names := d.names[to := d.names[from]] - {from})
  }

  function Link(d: Disk, from: Name, to: Name): Disk
    requires from in d.names
  {
    d.(names := d.names[to := d.names[from]])
  }

  function Store(d: Disk, inode: nat, file: File): Disk {
    d.(inodes := d.inodes[inode := file])
  }

  // ---------------------------------------------------------------- one step of writer w

  /** None when the action is not the writer's next one, or its system call cannot happen. */
  function Step(jobs: seq<Job>, s: State, w: nat, action: Action): Option<State>
    requires w < |jobs| == |s.phases|
  {
    var job, d, phase := jobs[w], s.disk, s.phases[w];
    match (phase, action)
    case (Start, Begin) =>
      if job.target in d.names then
        if job.kind == CreateNew then Some(s.(phases := s.phases[w := Finished(false)]))
        else if d.names[job.target] in d.inodes
        then Some(s.(phases := s.phases[w := Ready(d.inodes[d.names[job.target]].mode)]))
        else None
      else Some(s.(phases := s.phases[w := Ready(job.mode)]))
    case (Ready(mode), MakeTemp(i)) =>
      if i in d.inodes || job.temp in d.names then None
      else Some(s.(disk := Store(d, i, File("", TEMP_MODE)).(names := d.names[job.temp := i]),
                   phases := s.phases[w := Opened(i, mode)], owned := s.owned[i := w]))
    case (Opened(i, mode), Chmod) =>
      if i !in d.inodes then None
      else Some(s.(disk := Store(d, i, d.inodes[i].(mode := mode)), phases := s.phases[w := Writing(i, mode, 0)]))
    case (Writing(i, mode, k), WriteChunk(count)) =>
      if i !in d.inodes || count == 0 || k + count > |job.data| then None
      else Some(s.(disk := Store(d, i, d.inodes[i].(data := d.inodes[i].data + job.data[k..k + count])),
                   phases := s.phases[w := Writing(i, mode, k + count)]))
    case (Writing(i, mode, k), Close) =>
      if k != |job.data| then None else Some(s.(phases := s.phases[w := Closed(i, mode)]))
    case (Closed(i, mode), Commit) =>
      if job.temp !in d.names then None
      else if job.kind == Replace then
        Some(s.(disk := Rename(d, job.temp, job.target), phases := s.phases[w := Leaving(i, mode, true)],
                commits := s.commits + [w]))
      else if job.target in d.names then Some(s.(phases := s.phases[w := Leaving(i, mode, false)]))
      else Some(s.(disk := Link(d, job.temp, job.target), phases := s.phases[w := Leaving(i, mode, true)],
                   commits := s.commits + [w]))
    case (Leaving(i, mode, ok), RemoveTemp(removed)) =>
      Some(s.(disk := if removed then Unlink(d, job.temp) else d, phases := s.phases[w := Finished(ok)]))
    case (Start, Fault) => Some(s.(phases := s.phases[w := Finished(false)]))
    case (Ready(_), Fault) => Some(s.(phases := s.phases[w := Finished(false)]))
    case (Opened(i, mode), Fault) => Some(s.(phases := s.phases[w := Leaving(i, mode, false)]))
    case (Writing(i, mode, _), Fault) => Some(s.(phases := s.phases[w := Leaving(i, mode, false)]))
    case (Closed(i, mode), Fault) => Some(s.(phases := s.phases[w := Leaving(i, mode, false)]))
    case _ => None
  }

  datatype Move = Move(writer: nat, action: Action)

  /** The state after an interleaving of steps; None when some step of it cannot happen. */
  function Run(jobs: seq<Job>, s: State, trace: seq<Move>): Option<State>
    requires |jobs| == |s.phases|
    ensures Run(jobs, s, trace).Some? ==> |Run(jobs, s, trace).value.phases| == |jobs|
  {
    if trace == [] then Some(s)
    else
      var before := Run(jobs, s, trace[..|trace| - 1]);
      var move := trace[|trace| - 1];
      if before.None? || move.writer >= |jobs| then None
      else Step(jobs, before.value, move.writer, move.action)
  }

  function Initial(jobs: seq<Job>, d: Disk): State {
    State(d, seq(|jobs|, _ => Start), [], map[])
  }

  // ---------------------------------------------------------------- assumptions

  /** Every name of the starting disk refers to a file. */
  ghost predicate ValidDisk(d: Disk) {
    forall x :: x in d.names ==> d.names[x] in d.inodes
  }

  /** Temporary names are fresh: unused, distinct, and nobody's target. */
  ghost predicate FreshTemps(jobs: seq<Job>, d: Disk) {
    && (forall w :: 0 <= w < |jobs| ==> jobs[w].temp !in d.names)
    && (forall v, w :: 0 <= v < |jobs| && 0 <= w < |jobs| ==> jobs[v].temp != jobs[w].target)
    && (forall v, w :: 0 <= v < w < |jobs| ==> jobs[v].temp != jobs[w].temp)
  }

  // ---------------------------------------------------------------- the invariant

  type Inodes = map<nat, File>
  type Names = map<Name, nat>
  type Owners = map<nat, nat>

  predicate HasInode(p: Phase) {
    p.Opened? || p.Writing? || p.Closed? || p.Leaving?
  }

  predicate BeforeCommit(p: Phase) {
    p.Opened? || p.Writing? || p.Closed?
  }

  /** A writer's own inode: its own, and holding exactly what it has written so far. */
  ghost predicate OwnInode(job: Job, w: nat, p: Phase, inodes: Inodes, owned: Owners) {
    HasInode(p) ==>
      && p.inode in owned && owned[p.inode] == w && p.inode in inodes
      && (p.Opened? ==> inodes[p.inode].data == "")
      && (p.Writing? ==> p.written <= |job.data| && inodes[p.inode] == File(job.data[..p.written], p.mode))
      && (p.Closed? || (p.Leaving? && p.ok) ==> inodes[p.inode] == File(job.data, p.mode))
  }

  /** A temporary name exists only for its writer's inode, and does exist until the commit. */
  ghost predicate OwnTemp(job: Job, w: nat, p: Phase, names: Names, owned: Owners) {
    && (job.temp in names ==> names[job.temp] in owned && owned[names[job.temp]] == w)
    && (BeforeCommit(p) ==> job.temp in names && names[job.temp] == p.inode)
  }

  ghost predicate WriterOk(job: Job, w: nat, p: Phase, disk: Disk, owned: Owners, commits: seq<nat>) {
    && OwnInode(job, w, p, disk.inodes, owned)
    && OwnTemp(job, w, p, disk.names, owned)
    && (w in commits <==> (p.Leaving? || p.Finished?) && p.ok)
    && (p.Start? || p.Ready? ==> forall i :: i in owned ==> owned[i] != w)
  }

  ghost predicate WritersOk(jobs: seq<Job>, phases: seq<Phase>, disk: Disk, owned: Owners, commits: seq<nat>)
    requires |jobs| == |phases|
  {
    forall w :: 0 <= w < |jobs| ==> WriterOk(jobs[w], w, phases[w], disk, owned, commits)
  }

  /** First inodes never change; the writers' inodes are others, and one that was published is complete. */
  ghost predicate InodesOk(jobs: seq<Job>, d0: Disk, inodes: Inodes, owned: Owners, commits: seq<nat>) {
    && (forall i :: i in d0.inodes ==> i in inodes && inodes[i] == d0.inodes[i] && i !in owned)
    && (forall i :: i in owned ==> i in inodes && owned[i] < |jobs|)
    && (forall i :: i in owned && owned[i] in commits ==> inodes[i].data == jobs[owned[i]].data)
    && (forall i, j :: i in owned && j in owned && owned[i] == owned[j] ==> i == j)
  }

  /** A name refers to a first inode, to its own writer's inode, or to a published one. */
  ghost predicate NamesOk(jobs: seq<Job>, d0: Disk, names: Names, owned: Owners, commits: seq<nat>) {
    forall y :: y in names ==> NameOk(jobs, d0, y, names[y], owned, commits)
  }

  ghost predicate NameOk(jobs: seq<Job>, d0: Disk, y: Name, i: nat, owned: Owners, commits: seq<nat>) {
    if i in owned
    then owned[i] < |jobs| && (y == jobs[owned[i]].temp || (y == jobs[owned[i]].target && owned[i] in commits))
    else i in d0.inodes
  }

  /** The last writer that committed to x. */
  function LastCommit(jobs: seq<Job>, commits: seq<nat>, x: Name): Option<nat> {
    if commits == [] then None
    else
      var w := commits[|commits| - 1];
      if w < |jobs| && jobs[w].target == x then Some(w) else LastCommit(jobs, commits[..|commits| - 1], x)
  }

  ghost predicate IsTemp(jobs: seq<Job>, x: Name) {
    exists w :: 0 <= w < |jobs| && jobs[w].temp == x
  }

  /** What the name x refers to: its first inode, or that of the last writer that committed to it. */
  ghost predicate NameTells(jobs: seq<Job>, d0: Disk, names: Names, owned: Owners, commits: seq<nat>, x: Name) {
    match LastCommit(jobs, commits, x)
    case None => (x in names <==> x in d0.names) && (x in d0.names ==> names[x] == d0.names[x])
    case Some(w) => x in names && names[x] in owned && owned[names[x]] == w && w in commits
                    && w < |jobs| && jobs[w].target == x
  }

  /** AtomicNew commits only where nothing was: x was absent at first and no commit to x came earlier. */
  ghost predicate NewOnlyFirst(jobs: seq<Job>, d0: Disk, commits: seq<nat>, x: Name) {
    forall i :: 0 <= i < |commits| && commits[i] < |jobs| ==> NewIsFirst(jobs, d0, commits, x, i)
  }

  ghost predicate NewIsFirst(jobs: seq<Job>, d0: Disk, commits: seq<nat>, x: Name, i: nat)
    requires i < |commits| && commits[i] < |jobs|
  {
    jobs[commits[i]].target == x && jobs[commits[i]].kind == CreateNew ==>
      x !in d0.names && LastCommit(jobs, commits[..i], x).None?
  }

  /** The mode a file at x may get: that of an existing target, else the default of some writer to x. */
  ghost predicate RightMode(jobs: seq<Job>, d0: Disk, x: Name, mode: nat) {
    if x in d0.names && d0.names[x] in d0.inodes then mode == d0.inodes[d0.names[x]].mode
    else exists v :: 0 <= v < |jobs| && jobs[v].target == x && jobs[v].mode == mode
  }

  predicate HasMode(p: Phase) {
    p.Ready? || HasInode(p)
  }

  ghost predicate PhaseModes(jobs: seq<Job>, d0: Disk, phases: seq<Phase>, x: Name)
    requires |jobs| == |phases|
  {
    forall w :: 0 <= w < |jobs| && jobs[w].target == x && HasMode(phases[w]) ==> RightMode(jobs, d0, x, phases[w].mode)
  }

  ghost predicate FileModes(jobs: seq<Job>, d0: Disk, inodes: Inodes, owned: Owners, commits: seq<nat>, x: Name) {
    forall i ::
      i in owned && i in inodes && owned[i] < |jobs| && owned[i] in commits && jobs[owned[i]].target == x
      ==> RightMode(jobs, d0, x, inodes[i].mode)
  }

  ghost predicate Inv(jobs: seq<Job>, d0: Disk, s: State, x: Name) {
    && |jobs| == |s.phases|
    && InodesOk(jobs, d0, s.disk.inodes, s.owned, s.commits)
    && NamesOk(jobs, d0, s.disk.names, s.owned, s.commits)
    && WritersOk(jobs, s.phases, s.disk, s.owned, s.commits)
    && NameTells(jobs, d0, s.disk.names, s.owned, s.commits, x)
    && NewOnlyFirst(jobs, d0, s.commits, x)
    && PhaseModes(jobs, d0, s.phases, x)
    && FileModes(jobs, d0, s.disk.inodes, s.owned, s.commits, x)
  }

  lemma InitialInv(jobs: seq<Job>, d0: Disk, x: Name)
    requires ValidDisk(d0) && FreshTemps(jobs, d0)
    ensures Inv(jobs, d0, Initial(jobs, d0), x)
  {
  }

  // ---------------------------------------------------------------- every step keeps it

  lemma StepKeeps(jobs: seq<Job>, d0: Disk, s: State, x: Name, w: nat, action: Action)
    requires ValidDisk(d0) && FreshTemps(jobs, d0) && !IsTemp(jobs, x) && Inv(jobs, d0, s, x)
    requires w < |jobs| && Step(jobs, s, w, action).Some?
    ensures Inv(jobs, d0, Step(jobs, s, w, action).value, x)
  {
    hide Inv, Step;
    match action
    case MakeTemp(i) => MakeTempKeeps(jobs, d0, s, x, w, i);
    case Chmod => FillKeeps(jobs, d0, s, x, w, action);
    case WriteChunk(_) => FillKeeps(jobs, d0, s, x, w, action);
    case Commit => CommitKeeps(jobs, d0, s, x, w);
    case RemoveTemp(_) => RemoveKeeps(jobs, d0, s, x, w, action);
    case _ => PhaseOnlyKeeps(jobs, d0, s, x, w, action);
  }

  lemma PhaseModesUpdate(jobs: seq<Job>, d0: Disk, phases: seq<Phase>, w: nat, p: Phase, x: Name)
    requires |jobs| == |phases| && w < |jobs| && PhaseModes(jobs, d0, phases, x)
    requires HasMode(p) && jobs[w].target == x ==> RightMode(jobs, d0, x, p.mode)
    ensures PhaseModes(jobs, d0, phases[w := p], x)
  {
  }

  lemma PhaseOnlyKeeps(jobs: seq<Job>, d0: Disk, s: State, x: Name, w: nat, action: Action)
    requires ValidDisk(d0) && FreshTemps(jobs, d0) && Inv(jobs, d0, s, x)
    requires w < |jobs| && Step(jobs, s, w, action).Some?
    requires action.Begin? || action.Close? || action.Fault?
    ensures Inv(jobs, d0, Step(jobs, s, w, action).value, x)
  {
    hide NewOnlyFirst, NamesOk, InodesOk, NameTells, FileModes, PhaseModes, RightMode;
    var s' := Step(jobs, s, w, action).value;
    var p := s'.phases[w];
    assert s' == s.(phases := s.phases[w := p]);
    assert WriterOk(jobs[w], w, s.phases[w], s.disk, s.owned, s.commits);
    if jobs[w].target == x && HasMode(p) {
      if action.Begin? {
        BeginMode(jobs, d0, s, x, w);
      } else {
        PhaseMode(jobs, d0, s.phases, x, w);
      }
    }
    PhaseModesUpdate(jobs, d0, s.phases, w, p, x);
  }

  /** The mode found by stat, or the default where nothing was, is a right one. */
  lemma BeginMode(jobs: seq<Job>, d0: Disk, s: State, x: Name, w: nat)
    requires ValidDisk(d0) && Inv(jobs, d0, s, x)
    requires w < |jobs| && jobs[w].target == x && Step(jobs, s, w, Begin).Some?
    ensures var p := Step(jobs, s, w, Begin).value.phases[w]; HasMode(p) ==> RightMode(jobs, d0, x, p.mode)
  {
    hide NewOnlyFirst, NamesOk, WritersOk, PhaseModes;
  }

  lemma MakeTempKeeps(jobs: seq<Job>, d0: Disk, s: State, x: Name, w: nat, i: nat)
    requires ValidDisk(d0) && FreshTemps(jobs, d0) && !IsTemp(jobs, x) && Inv(jobs, d0, s, x)
    requires w < |jobs| && Step(jobs, s, w, MakeTemp(i)).Some?
    ensures Inv(jobs, d0, Step(jobs, s, w, MakeTemp(i)).value, x)
  {
    hide RightMode, PhaseModes, FileModes, NewOnlyFirst, WritersOk, NamesOk, InodesOk, NameTells, FreshTemps;
    var s' := Step(jobs, s, w, MakeTemp(i)).value;
    PhaseMode(jobs, d0, s.phases, x, w);
    PhaseModesUpdate(jobs, d0, s.phases, w, s'.phases[w], x);
    MakeTempInodes(jobs, d0, s, x, w, i);
    MakeTempNames(jobs, d0, s, x, w, i);
    MakeTempWriters(jobs, d0, s, x, w, i);
  }

  lemma PhaseMode(jobs: seq<Job>, d0: Disk, phases: seq<Phase>, x: Name, w: nat)
    requires |jobs| == |phases| && PhaseModes(jobs, d0, phases, x) && w < |jobs|
    ensures jobs[w].target == x && HasMode(phases[w]) ==> RightMode(jobs, d0, x, phases[w].mode)
  {
  }

  lemma MakeTempInodes(jobs: seq<Job>, d0: Disk, s: State, x: Name, w: nat, i: nat)
    requires !IsTemp(jobs, x) && Inv(jobs, d0, s, x)
    requires w < |jobs| && Step(jobs, s, w, MakeTemp(i)).Some?
    ensures var s' := Step(jobs, s, w, MakeTemp(i)).value;
            && InodesOk(jobs, d0, s'.disk.inodes, s'.owned, s'.commits)
            && FileModes(jobs, d0, s'.disk.inodes, s'.owned, s'.commits, x)
  {
    hide RightMode, PhaseModes, NewOnlyFirst, LastCommit, NamesOk, NameTells;
    assert i !in s.owned && i !in d0.inodes;
    assert WriterOk(jobs[w], w, s.phases[w], s.disk, s.owned, s.commits);
  }

  lemma MakeTempNames(jobs: seq<Job>, d0: Disk, s: State, x: Name, w: nat, i: nat)
    requires !IsTemp(jobs, x) && Inv(jobs, d0, s, x)
    requires w < |jobs| && Step(jobs, s, w, MakeTemp(i)).Some?
    ensures var s' := Step(jobs, s, w, MakeTemp(i)).value;
            && NamesOk(jobs, d0, s'.disk.names, s'.owned, s'.commits)
            && NameTells(jobs, d0, s'.disk.names, s'.owned, s'.commits, x)
  {
    hide RightMode, PhaseModes, NewOnlyFirst, LastCommit, FileModes, WritersOk;
    assert i !in s.owned && i !in d0.inodes;
    assert x != jobs[w].temp;
  }

  lemma MakeTempWriters(jobs: seq<Job>, d0: Disk, s: State, x: Name, w: nat, i: nat)
    requires FreshTemps(jobs, d0) && Inv(jobs, d0, s, x)
    requires w < |jobs| && Step(jobs, s, w, MakeTemp(i)).Some?
    ensures var s' := Step(jobs, s, w, MakeTemp(i)).value;
            WritersOk(jobs, s'.phases, s'.disk, s'.owned, s'.commits)
  {
    hide RightMode, PhaseModes, FileModes, NewOnlyFirst, NamesOk, NameTells;
    var s' := Step(jobs, s, w, MakeTemp(i)).value;
    assert i !in s.owned;
    forall v | 0 <= v < |jobs|
      ensures WriterOk(jobs[v], v, s'.phases[v], s'.disk, s'.owned, s'.commits)
    {
      assert WriterOk(jobs[v], v, s.phases[v], s.disk, s.owned, s.commits);
      assert v != w ==> jobs[v].temp != jobs[w].temp;
    }
  }

  /** chmod and write touch only the writer's own, unpublished inode. */
  lemma FillKeeps(jobs: seq<Job>, d0: Disk, s: State, x: Name, w: nat, action: Action)
    requires Inv(jobs, d0, s, x)
    requires w < |jobs| && Step(jobs, s, w, action).Some?
    requires action.Chmod? || action.WriteChunk?
    ensures Inv(jobs, d0, Step(jobs, s, w, action).value, x)
  {
    hide RightMode, NewOnlyFirst, NamesOk, NameTells, PhaseModes, LastCommit;
    var s' := Step(jobs, s, w, action).value;
    assert WriterOk(jobs[w], w, s.phases[w], s.disk, s.owned, s.commits);
    PhaseMode(jobs, d0, s.phases, x, w);
    PhaseModesUpdate(jobs, d0, s.phases, w, s'.phases[w], x);
    FillWriters(jobs, d0, s, x, w, action);
    assert w !in s.commits;
  }

  lemma FillWriters(jobs: seq<Job>, d0: Disk, s: State, x: Name, w: nat, action: Action)
    requires Inv(jobs, d0, s, x)
    requires w < |jobs| && Step(jobs, s, w, action).Some?
    requires action.Chmod? || action.WriteChunk?
    ensures var s' := Step(jobs, s, w, action).value;
            WritersOk(jobs, s'.phases, s'.disk, s'.owned, s'.commits)
  {
    hide RightMode, NewOnlyFirst, NamesOk, NameTells, PhaseModes, InodesOk, FileModes;
    var s' := Step(jobs, s, w, action).value;
    var p := s.phases[w];
    assert WriterOk(jobs[w], w, p, s.disk, s.owned, s.commits);
    var k := if action.Chmod? then 0 else p.written;
    var count := if action.Chmod? then 0 else action.count;
    assert jobs[w].data[..k] + jobs[w].data[k..k + count] == jobs[w].data[..k + count];
    forall v | 0 <= v < |jobs|
      ensures WriterOk(jobs[v], v, s'.phases[v], s'.disk, s'.owned, s'.commits)
    {
      assert WriterOk(jobs[v], v, s.phases[v], s.disk, s.owned, s.commits);
    }
  }

  lemma RemoveKeeps(jobs: seq<Job>, d0: Disk, s: State, x: Name, w: nat, action: Action)
    requires FreshTemps(jobs, d0) && !IsTemp(jobs, x) && Inv(jobs, d0, s, x)
    requires w < |jobs| && Step(jobs, s, w, action).Some? && action.RemoveTemp?
    ensures Inv(jobs, d0, Step(jobs, s, w, action).value, x)
  {
    hide RightMode, NewOnlyFirst, InodesOk, PhaseModes, FileModes, LastCommit, NameOk;
    assert x != jobs[w].temp;
    var s' := Step(jobs, s, w, action).value;
    PhaseModesUpdate(jobs, d0, s.phases, w, s'.phases[w], x);
    forall v | 0 <= v < |jobs|
      ensures WriterOk(jobs[v], v, s'.phases[v], s'.disk, s'.owned, s'.commits)
    {
      assert WriterOk(jobs[v], v, s.phases[v], s.disk, s.owned, s.commits);
      assert v != w ==> jobs[v].temp != jobs[w].temp;
    }
  }

  lemma CommitKeeps(jobs: seq<Job>, d0: Disk, s: State, x: Name, w: nat)
    requires ValidDisk(d0) && FreshTemps(jobs, d0) && !IsTemp(jobs, x) && Inv(jobs, d0, s, x)
    requires w < |jobs| && Step(jobs, s, w, Commit).Some?
    ensures Inv(jobs, d0, Step(jobs, s, w, Commit).value, x)
  {
    hide RightMode, NewOnlyFirst, InodesOk, PhaseModes, FileModes, NamesOk, NameTells, LastCommit, WritersOk, FreshTemps;
    var s' := Step(jobs, s, w, Commit).value;
    PhaseMode(jobs, d0, s.phases, x, w);
    PhaseModesUpdate(jobs, d0, s.phases, w, s'.phases[w], x);
    CommitWriters(jobs, d0, s, x, w);
    if s'.commits != s.commits {
      CommitTables(jobs, d0, s, x, w);
      CommitHistory(jobs, d0, s, x, w);
    }
  }

  lemma CommitWriters(jobs: seq<Job>, d0: Disk, s: State, x: Name, w: nat)
    requires FreshTemps(jobs, d0) && Inv(jobs, d0, s, x)
    requires w < |jobs| && Step(jobs, s, w, Commit).Some?
    ensures var s' := Step(jobs, s, w, Commit).value;
            WritersOk(jobs, s'.phases, s'.disk, s'.owned, s'.commits)
  {
    hide RightMode, PhaseModes, FileModes, NewOnlyFirst, NameTells, InodesOk, NamesOk;
    var s' := Step(jobs, s, w, Commit).value;
    forall v | 0 <= v < |jobs|
      ensures WriterOk(jobs[v], v, s'.phases[v], s'.disk, s'.owned, s'.commits)
    {
      assert WriterOk(jobs[v], v, s.phases[v], s.disk, s.owned, s.commits);
      assert jobs[v].temp != jobs[w].target;
      assert v != w ==> jobs[v].temp != jobs[w].temp;
    }
  }

  lemma CommitTables(jobs: seq<Job>, d0: Disk, s: State, x: Name, w: nat)
    requires FreshTemps(jobs, d0) && !IsTemp(jobs, x) && Inv(jobs, d0, s, x)
    requires w < |jobs| && Step(jobs, s, w, Commit).Some?
    requires Step(jobs, s, w, Commit).value.commits != s.commits
    ensures var s' := Step(jobs, s, w, Commit).value;
            && InodesOk(jobs, d0, s'.disk.inodes, s'.owned, s'.commits)
            && NamesOk(jobs, d0, s'.disk.names, s'.owned, s'.commits)
            && FileModes(jobs, d0, s'.disk.inodes, s'.owned, s'.commits, x)
  {
    hide RightMode, PhaseModes, NewOnlyFirst, NameTells, InodesOk, FileModes, NamesOk, FreshTemps;
    var p := s.phases[w];
    assert WriterOk(jobs[w], w, p, s.disk, s.owned, s.commits);
    PhaseMode(jobs, d0, s.phases, x, w);
    PublishInodes(jobs, d0, s.disk.inodes, s.owned, s.commits, x, w, p.inode);
    PublishName(jobs, d0, s.disk.names, s.owned, s.commits, w);
  }

  /** A complete inode may be published: its data is the job's and its mode a right one. */
  lemma PublishInodes(jobs: seq<Job>, d0: Disk, inodes: Inodes, owned: Owners, commits: seq<nat>, x: Name, w: nat, i: nat)
    requires InodesOk(jobs, d0, inodes, owned, commits) && FileModes(jobs, d0, inodes, owned, commits, x)
    requires w < |jobs| && i in owned && owned[i] == w && i in inodes && inodes[i].data == jobs[w].data
    requires jobs[w].target == x ==> RightMode(jobs, d0, x, inodes[i].mode)
    ensures InodesOk(jobs, d0, inodes, owned, commits + [w]) && FileModes(jobs, d0, inodes, owned, commits + [w], x)
  {
    hide RightMode;
    assert forall v :: v in commits + [w] <==> v in commits || v == w;
  }

  lemma PublishName(jobs: seq<Job>, d0: Disk, names: Names, owned: Owners, commits: seq<nat>, w: nat)
    requires NamesOk(jobs, d0, names, owned, commits) && w < |jobs|
    requires jobs[w].temp in names && names[jobs[w].temp] in owned && owned[names[jobs[w].temp]] == w
    ensures NamesOk(jobs, d0, names[jobs[w].target := names[jobs[w].temp]], owned, commits + [w])
    ensures NamesOk(jobs, d0, names[jobs[w].target := names[jobs[w].temp]] - {jobs[w].temp}, owned, commits + [w])
    ensures NamesOk(jobs, d0, names, owned, commits + [w])
  {
    assert forall v :: v in commits + [w] <==> v in commits || v == w;
    forall y | y in names
      ensures NameOk(jobs, d0, y, names[y], owned, commits + [w])
    {
      assert NameOk(jobs, d0, y, names[y], owned, commits);
    }
  }

  lemma CommitHistory(jobs: seq<Job>, d0: Disk, s: State, x: Name, w: nat)
    requires FreshTemps(jobs, d0) && !IsTemp(jobs, x) && Inv(jobs, d0, s, x)
    requires w < |jobs| && Step(jobs, s, w, Commit).Some?
    requires Step(jobs, s, w, Commit).value.commits != s.commits
    ensures var s' := Step(jobs, s, w, Commit).value;
            && NameTells(jobs, d0, s'.disk.names, s'.owned, s'.commits, x)
            && NewOnlyFirst(jobs, d0, s'.commits, x)
  {
    hide RightMode, PhaseModes, FileModes, InodesOk, NewOnlyFirst;
    var s' := Step(jobs, s, w, Commit).value;
    assert WriterOk(jobs[w], w, s.phases[w], s.disk, s.owned, s.commits);
    assert s'.commits == s.commits + [w];
    LastCommitAppend(jobs, s.commits, w, x);
    if jobs[w].kind == CreateNew && jobs[w].target == x {
      assert LastCommit(jobs, s.commits, x).None?;
      assert x !in d0.names;
    }
    NewOnlyFirstAppend(jobs, d0, s.commits, w, x);
    assert x != jobs[w].temp;
    if jobs[w].target == x {
      if x in s.disk.names {
        assert NameOk(jobs, d0, x, s.disk.names[x], s.owned, s.commits);
      }
      assert s'.disk.names[x] == s.phases[w].inode;
    } else {
      assert x in s'.disk.names <==> x in s.disk.names;
      assert x in s.disk.names ==> s'.disk.names[x] == s.disk.names[x];
    }
  }

  lemma LastCommitAppend(jobs: seq<Job>, commits: seq<nat>, w: nat, x: Name)
    requires w < |jobs|
    ensures LastCommit(jobs, commits + [w], x) == if jobs[w].target == x then Some(w) else LastCommit(jobs, commits, x)
  {
    assert (commits + [w])[..|commits|] == commits;
  }

  lemma NewOnlyFirstAppend(jobs: seq<Job>, d0: Disk, commits: seq<nat>, w: nat, x: Name)
    requires w < |jobs| && NewOnlyFirst(jobs, d0, commits, x)
    requires jobs[w].target == x && jobs[w].kind == CreateNew ==> x !in d0.names && LastCommit(jobs, commits, x).None?
    ensures NewOnlyFirst(jobs, d0, commits + [w], x)
  {
    hide LastCommit;
    var commits' := commits + [w];
    forall i | 0 <= i < |commits'| && commits'[i] < |jobs|
      ensures NewIsFirst(jobs, d0, commits', x, i)
    {
      assert commits'[..i] == commits[..i];
      if i < |commits| {
        assert NewIsFirst(jobs, d0, commits, x, i);
      } else {
        assert commits[..i] == commits;
      }
    }
  }

  lemma {:induction false} RunKeeps(jobs: seq<Job>, d0: Disk, trace: seq<Move>, x: Name)
    requires ValidDisk(d0) && FreshTemps(jobs, d0) && !IsTemp(jobs, x)
    requires Run(jobs, Initial(jobs, d0), trace).Some?
    ensures Inv(jobs, d0, Run(jobs, Initial(jobs, d0), trace).value, x)
  {
    hide Inv, Step;
    if trace == [] {
      InitialInv(jobs, d0, x);
    } else {
      var front, move := trace[..|trace| - 1], trace[|trace| - 1];
      RunKeeps(jobs, d0, front, x);
      StepKeeps(jobs, d0, Run(jobs, Initial(jobs, d0), front).value, x, move.writer, move.action);
    }
  }

  // ---------------------------------------------------------------- what observers see

  /** The file a name leads to, if any. */
  function Read(d: Disk, x: Name): Option<File> {
    if x in d.names && d.names[x] in d.inodes then Some(d.inodes[d.names[x]]) else None
  }

  ghost predicate Reachable(jobs: seq<Job>, d0: Disk, s: State) {
    exists trace :: Run(jobs, Initial(jobs, d0), trace) == Some(s)
  }

  /** At every crash point a name reads as it first did, or as the whole data of its last committed writer. */
  lemma NeverTorn(jobs: seq<Job>, d0: Disk, s: State, x: Name)
    requires ValidDisk(d0) && FreshTemps(jobs, d0) && !IsTemp(jobs, x) && Reachable(jobs, d0, s)
    ensures match LastCommit(jobs, s.commits, x)
            case None => Read(s.disk, x) == Read(d0, x)
            case Some(w) => w < |jobs| && jobs[w].target == x && w in s.commits
                            && Read(s.disk, x).Some? && Read(s.disk, x).value.data == jobs[w].data
  {
    var trace :| Run(jobs, Initial(jobs, d0), trace) == Some(s);
    RunKeeps(jobs, d0, trace, x);
  }

  /** An existing target keeps its mode through any interleaving; a new file gets some writer's default. */
  lemma ModeKept(jobs: seq<Job>, d0: Disk, s: State, x: Name)
    requires ValidDisk(d0) && FreshTemps(jobs, d0) && !IsTemp(jobs, x) && Reachable(jobs, d0, s)
    requires Read(s.disk, x).Some?
    ensures match Read(d0, x)
            case Some(file) => Read(s.disk, x).value.mode == file.mode
            case None => exists v :: 0 <= v < |jobs| && jobs[v].target == x && jobs[v].mode == Read(s.disk, x).value.mode
  {
    var trace :| Run(jobs, Initial(jobs, d0), trace) == Some(s);
    RunKeeps(jobs, d0, trace, x);
    assert RightMode(jobs, d0, x, Read(s.disk, x).value.mode);
  }

  /** A writer reports success exactly when its commit took effect. */
  lemma SuccessMeansCommitted(jobs: seq<Job>, d0: Disk, s: State, w: nat)
    requires ValidDisk(d0) && FreshTemps(jobs, d0) && Reachable(jobs, d0, s) && w < |jobs| == |s.phases|
    ensures w in s.commits <==> (s.phases[w].Leaving? || s.phases[w].Finished?) && s.phases[w].ok
  {
    var trace :| Run(jobs, Initial(jobs, d0), trace) == Some(s);
    var x := jobs[w].target;
    assert !IsTemp(jobs, x);
    RunKeeps(jobs, d0, trace, x);
    assert WriterOk(jobs[w], w, s.phases[w], s.disk, s.owned, s.commits);
  }

  /** Of the AtomicNew writers to one target at most one ever commits, and none if the target existed. */
  lemma AtMostOneCreates(jobs: seq<Job>, d0: Disk, s: State, v: nat, w: nat)
    requires ValidDisk(d0) && FreshTemps(jobs, d0) && Reachable(jobs, d0, s)
    requires v < |jobs| && w < |jobs| && jobs[v].target == jobs[w].target
    requires jobs[v].kind == CreateNew && jobs[w].kind == CreateNew
    requires v in s.commits && w in s.commits
    ensures v == w && jobs[v].target !in d0.names
  {
    hide InodesOk, NamesOk, WritersOk, NameTells, PhaseModes, FileModes, Run, Step;
    var trace :| Run(jobs, Initial(jobs, d0), trace) == Some(s);
    var x := jobs[w].target;
    assert !IsTemp(jobs, x);
    RunKeeps(jobs, d0, trace, x);
    var i :| 0 <= i < |s.commits| && s.commits[i] == v;
    var j :| 0 <= j < |s.commits| && s.commits[j] == w;
    assert NewIsFirst(jobs, d0, s.commits, x, i) && NewIsFirst(jobs, d0, s.commits, x, j);
    if i < j {
      CommittedEarlier(jobs, s.commits[..j], x, i);
    } else if j < i {
      CommittedEarlier(jobs, s.commits[..i], x, j);
    }
  }

  lemma {:induction false} CommittedEarlier(jobs: seq<Job>, commits: seq<nat>, x: Name, i: nat)
    requires i < |commits| && commits[i] < |jobs| && jobs[commits[i]].target == x
    ensures LastCommit(jobs, commits, x).Some?
  {
    if i < |commits| - 1 {
      CommittedEarlier(jobs, commits[..|commits| - 1], x, i);
    }
  }

  /** The temporary name is there only between its making and its removal. */
  ghost predicate TempsTidy(jobs: seq<Job>, s: State)
    requires |jobs| == |s.phases|
  {
    forall w :: 0 <= w < |jobs| && jobs[w].temp in s.disk.names ==> HasInode(s.phases[w])
  }

  /** Unless the removal itself fails, no writer that has returned leaves its temporary name behind, failed or not. */
  lemma {:induction false} NoTempLeft(jobs: seq<Job>, d0: Disk, trace: seq<Move>)
    requires ValidDisk(d0) && FreshTemps(jobs, d0)
    requires Run(jobs, Initial(jobs, d0), trace).Some?
    requires forall i :: 0 <= i < |trace| ==> trace[i].action != RemoveTemp(false)
    ensures TempsTidy(jobs, Run(jobs, Initial(jobs, d0), trace).value)
  {
    hide Step;
    if trace != [] {
      var front, move := trace[..|trace| - 1], trace[|trace| - 1];
      NoTempLeft(jobs, d0, front);
      StepStaysTidy(jobs, d0, Run(jobs, Initial(jobs, d0), front).value, move.writer, move.action);
    }
  }

  lemma StepStaysTidy(jobs: seq<Job>, d0: Disk, s: State, w: nat, action: Action)
    requires FreshTemps(jobs, d0) && |jobs| == |s.phases| && w < |jobs| && TempsTidy(jobs, s)
    requires Step(jobs, s, w, action).Some? && action != RemoveTemp(false)
    ensures TempsTidy(jobs, Step(jobs, s, w, action).value)
  {
    var s' := Step(jobs, s, w, action).value;
    forall v | 0 <= v < |jobs| && jobs[v].temp in s'.disk.names
      ensures HasInode(s'.phases[v])
    {
      assert jobs[v].temp != jobs[w].target;
      assert v != w ==> jobs[v].temp != jobs[w].temp;
    }
  }

  /** What a writer still has before it returns, at most: a step for each character and one for each other call. */
  function StepsLeft(job: Job, phase: Phase): nat {
    match phase
    case Start => |job.data| + 6
    case Ready(_) => |job.data| + 5
    case Opened(_, _) => |job.data| + 4
    case Writing(_, _, written) => if written <= |job.data| then |job.data| - written + 3 else 3
    case Closed(_, _) => 2
    case Leaving(_, _, _) => 1
    case Finished(_) => 0
  }

  function MovesOf(trace: seq<Move>, w: nat): nat {
    if trace == [] then 0
    else MovesOf(trace[..|trace| - 1], w) + if trace[|trace| - 1].writer == w then 1 else 0
  }

  lemma StepShrinks(jobs: seq<Job>, s: State, w: nat, action: Action)
    requires w < |jobs| == |s.phases| && Step(jobs, s, w, action).Some?
    ensures var s' := Step(jobs, s, w, action).value;
            && StepsLeft(jobs[w], s'.phases[w]) < StepsLeft(jobs[w], s.phases[w])
            && forall v :: 0 <= v < |jobs| && v != w ==> s'.phases[v] == s.phases[v]
  {
  }

  /** Every writer returns: its steps and those it has left are never more than it began with, whatever the others do. */
  lemma {:induction false} WritersReturn(jobs: seq<Job>, d0: Disk, trace: seq<Move>, w: nat)
    requires w < |jobs| && Run(jobs, Initial(jobs, d0), trace).Some?
    ensures MovesOf(trace, w) + StepsLeft(jobs[w], Run(jobs, Initial(jobs, d0), trace).value.phases[w]) <= |jobs[w].data| + 6
  {
    hide Step, StepsLeft;
    if trace == [] {
      assert StepsLeft(jobs[w], Start) == |jobs[w].data| + 6 by {
        NotBegun(jobs[w]);
      }
    } else {
      var front, move := trace[..|trace| - 1], trace[|trace| - 1];
      WritersReturn(jobs, d0, front, w);
      StepShrinks(jobs, Run(jobs, Initial(jobs, d0), front).value, move.writer, move.action);
    }
  }

  lemma NotBegun(job: Job)
    ensures StepsLeft(job, Start) == |job.data| + 6
  {
  }

  /** No writer is ever stuck: as long as it has not returned, its next call can be made, and need not fail. */
  lemma NeverStuck(jobs: seq<Job>, d0: Disk, s: State, w: nat, free: nat)
    requires ValidDisk(d0) && FreshTemps(jobs, d0) && Reachable(jobs, d0, s)
    requires w < |jobs| == |s.phases| && !s.phases[w].Finished? && free !in s.disk.inodes
    ensures exists action :: action != Fault && Step(jobs, s, w, action).Some?
  {
    var trace :| Run(jobs, Initial(jobs, d0), trace) == Some(s);
    RunKeeps(jobs, d0, trace, jobs[w].target);
    NextCall(jobs, d0, s, w, free);
  }

  lemma NextCall(jobs: seq<Job>, d0: Disk, s: State, w: nat, free: nat)
    requires ValidDisk(d0) && w < |jobs| == |s.phases| && Inv(jobs, d0, s, jobs[w].target)
    requires !s.phases[w].Finished? && free !in s.disk.inodes
    ensures exists action :: action != Fault && Step(jobs, s, w, action).Some?
  {
    hide NameTells, NewOnlyFirst, PhaseModes, FileModes;
    var job, phase := jobs[w], s.phases[w];
    assert WriterOk(job, w, phase, s.disk, s.owned, s.commits);
    match phase {
      case Start =>
        if job.target in s.disk.names {
          assert NameOk(jobs, d0, job.target, s.disk.names[job.target], s.owned, s.commits);
        }
        assert Step(jobs, s, w, Begin).Some?;
      case Ready(_) => assert Step(jobs, s, w, MakeTemp(free)).Some?;
      case Opened(_, _) => assert Step(jobs, s, w, Chmod).Some?;
      case Writing(_, _, k) =>
        if k == |job.data| {
          assert Step(jobs, s, w, Close).Some?;
        } else {
          assert Step(jobs, s, w, WriteChunk(1)).Some?;
        }
      case Closed(_, _) => assert Step(jobs, s, w, Commit).Some?;
      case Leaving(_, _, _) => assert Step(jobs, s, w, RemoveTemp(true)).Some?;
    }
  }

  /** Files that were there are never altered in place: an open or hard-linked old file keeps its content. */
  lemma OldFilesUntouched(jobs: seq<Job>, d0: Disk, s: State, i: nat, x: Name)
    requires ValidDisk(d0) && FreshTemps(jobs, d0) && !IsTemp(jobs, x) && Reachable(jobs, d0, s)
    ensures i in d0.inodes ==> i in s.disk.inodes && s.disk.inodes[i] == d0.inodes[i]
    ensures (forall w :: 0 <= w < |jobs| ==> jobs[w].target != x) ==> Read(s.disk, x) == Read(d0, x)
  {
    var trace :| Run(jobs, Initial(jobs, d0), trace) == Some(s);
    RunKeeps(jobs, d0, trace, x);
    if forall w :: 0 <= w < |jobs| ==> jobs[w].target != x {
      NeverTorn(jobs, d0, s, x);
    }
  }
}
