/**
 Symlink resolution and the sequential form of the atomic writers (internal/fswrite/fswrite.go).
 A link's destination is taken as already joined with the link's directory.
 */
module Symlinks {
  import opened Wrappers
  import opened AtomicWrites
  import Pigeonhole

  const MAX_HOPS: nat := 40

  datatype Failure = TooManyLinks | StatFailed | Exists | CallFailed

  /** The call that fails: making the directory or the temporary file, chmod, write, close, or rename and link. */
  datatype Call = AtTemp | AtChmod | AtWrite(written: nat) | AtClose | AtCommit

  /** The name after k hops; None once a hop starts from something that is not a link. */
  function Chain(links: map<Name, Name>, path: Name, k: nat): Option<Name> {
    if k == 0 then Some(path)
    else
      var before := Chain(links, path, k - 1);
      if before.Some? && before.value in links then Some(links[before.value]) else None
  }

  /** The names that a walk of k hops passes, each but the last a link to the next. */
  ghost predicate Hops(links: map<Name, Name>, path: Name, k: nat, target: Name, hops: seq<Name>) {
    && |hops| == k + 1 && hops[0] == path && hops[k] == target
    && forall i :: 0 <= i < k ==> hops[i] in links && links[hops[i]] == hops[i + 1]
  }

  lemma {:induction false} ChainExactly(links: map<Name, Name>, path: Name, k: nat, target: Name)
    ensures Chain(links, path, k) == Some(target) <==> exists hops :: Hops(links, path, k, target, hops)
  {
    if k == 0 {
      if target == path {
        assert Hops(links, path, 0, target, [path]);
      }
    } else {
      if Chain(links, path, k) == Some(target) {
        var before := Chain(links, path, k - 1).value;
        ChainExactly(links, path, k - 1, before);
        var hops :| Hops(links, path, k - 1, before, hops);
        assert Hops(links, path, k, target, hops + [target]);
      }
      if hops :| Hops(links, path, k, target, hops) {
        assert Hops(links, path, k - 1, hops[k - 1], hops[..k]);
        ChainExactly(links, path, k - 1, hops[k - 1]);
      }
    }
  }

  ghost predicate ResolvesAt(links: map<Name, Name>, unreadable: set<Name>, path: Name, k: nat, target: Name) {
    && Chain(links, path, k) == Some(target) && target !in links
    && forall j :: 0 <= j <= k ==> Chain(links, path, j).Some? && Chain(links, path, j).value !in unreadable
  }

  lemma {:induction false} ChainDefined(links: map<Name, Name>, path: Name, k: nat, j: nat)
    requires Chain(links, path, k).Some? && j < k
    ensures Chain(links, path, j).Some? && Chain(links, path, j).value in links
  {
    if j < k - 1 {
      ChainDefined(links, path, k - 1, j);
    }
  }

  /** A chain that returns to a name it has visited never leaves the cycle. */
  lemma {:induction false} CycleStaysInLinks(links: map<Name, Name>, path: Name, i: nat, j: nat, k: nat)
    requires i < j && Chain(links, path, j).Some? && Chain(links, path, i) == Chain(links, path, j)
    ensures Chain(links, path, k).Some? && Chain(links, path, k).value in links
  {
    ChainDefined(links, path, j, i);
    if k < j {
      ChainDefined(links, path, j, k);
    } else if k > j {
      CycleStaysInLinks(links, path, i, j, k - 1);
      ChainShift(links, path, i, j, k - j);
      CycleStaysInLinks(links, path, i, j, i + (k - j));
    }
  }

  lemma {:induction false} ChainShift(links: map<Name, Name>, path: Name, i: nat, j: nat, d: nat)
    requires Chain(links, path, i) == Chain(links, path, j)
    ensures Chain(links, path, i + d) == Chain(links, path, j + d)
  {
    if d > 0 {
      ChainShift(links, path, i, j, d - 1);
    }
  }

  /** On a cycle no hop count resolves the path. */
  lemma CycleNeverResolves(links: map<Name, Name>, unreadable: set<Name>, path: Name, i: nat, j: nat)
    requires i < j && Chain(links, path, j).Some? && Chain(links, path, i) == Chain(links, path, j)
    ensures forall k: nat, target :: !ResolvesAt(links, unreadable, path, k, target)
  {
    forall k: nat, target
      ensures !ResolvesAt(links, unreadable, path, k, target)
    {
      CycleStaysInLinks(links, path, i, j, k);
    }
  }

  /** With fewer links than hops allowed, a chain that outlives the limit has a cycle. */
  lemma TooManyMeansCycle(links: map<Name, Name>, path: Name)
    requires |links| < MAX_HOPS
    requires Chain(links, path, MAX_HOPS).Some?
    ensures exists i, j :: 0 <= i < j < MAX_HOPS && Chain(links, path, i) == Chain(links, path, j)
  {
    forall k: nat | k < MAX_HOPS
      ensures Chain(links, path, k).Some? && Chain(links, path, k).value in links
    {
      ChainDefined(links, path, MAX_HOPS, k);
    }
    var visited := seq(MAX_HOPS, k requires 0 <= k < MAX_HOPS => Chain(links, path, k).value);
    if Pigeonhole.Distinct(visited) {
      Pigeonhole.DistinctFit(visited, links.Keys);
    } else {
      var i, j :| 0 <= i < j < MAX_HOPS && visited[i] == visited[j];
    }
  }

  /** One disk with its symbolic links; names in `unreadable` cannot be examined. */
  class FileSystem {
    var names: map<Name, nat>
    var inodes: map<nat, File>
    var links: map<Name, Name>
    var unreadable: set<Name>

    ghost function Abstract(): Disk
      reads this
    {
      Disk(names, inodes)
    }

    /** The bounded walk of resolveSymlinks; a dangling last link resolves to where it points. */
    method Resolve(path: Name) returns (result: Result<Name, Failure>)
      ensures result.Ok? ==> exists k: nat :: k < MAX_HOPS && ResolvesAt(links, unreadable, path, k, result.value)
      ensures result.Err? ==> forall k: nat, target :: k < MAX_HOPS ==> !ResolvesAt(links, unreadable, path, k, target)
      ensures result == Err(TooManyLinks) ==> Chain(links, path, MAX_HOPS).Some?
      ensures result == Err(StatFailed) ==>
                exists k: nat :: k < MAX_HOPS && Chain(links, path, k).Some? && Chain(links, path, k).value in unreadable
      ensures result != Err(Exists) && result != Err(CallFailed)
    {
      var resolved := path;
      for hop := 0 to MAX_HOPS
        invariant Chain(links, path, hop) == Some(resolved)
        invariant forall j: nat, target :: j < hop ==> !ResolvesAt(links, unreadable, path, j, target)
        invariant forall j :: 0 <= j < hop ==> Chain(links, path, j).Some? && Chain(links, path, j).value !in unreadable
      {
        if resolved in unreadable {
          return Err(StatFailed);
        }
        if resolved !in links {
          assert ResolvesAt(links, unreadable, path, hop, resolved);
          return Ok(resolved);
        }
        resolved := links[resolved];
      }
      return Err(TooManyLinks);
    }

    method CreateTemp(temp: Name, inode: nat)
      requires temp !in names && inode !in inodes
      modifies this`names, this`inodes
      ensures names == old(names)[temp := inode] && inodes == old(inodes)[inode := File("", TEMP_MODE)]
    {
      inodes := inodes[inode := File("", TEMP_MODE)];
      names := names[temp := inode];
    }

    /** chmod, write and close; a write that fails leaves what it got to write. */
    method FillTemp(inode: nat, data: string, mode: nat, fault: Option<Call>) returns (ok: bool)
      requires inode in inodes && inodes[inode].data == ""
      modifies this`inodes
      ensures ok <==> fault.None? || fault.value.AtTemp? || fault.value.AtCommit?
      ensures ok ==> inodes == old(inodes)[inode := File(data, mode)]
      ensures inodes.Keys == old(inodes).Keys && forall i :: i in inodes && i != inode ==> inodes[i] == old(inodes)[i]
    {
      if fault == Some(AtChmod) {
        return false;
      }
      inodes := inodes[inode := inodes[inode].(mode := mode)];
      if fault.Some? && fault.value.AtWrite? {
        var written := if fault.value.written < |data| then fault.value.written else |data|;
        inodes := inodes[inode := inodes[inode].(data := inodes[inode].data + data[..written])];
        return false;
      }
      inodes := inodes[inode := inodes[inode].(data := inodes[inode].data + data)];
      assert "" + data == data;
      if fault == Some(AtClose) {
        return false;
      }
      return true;
    }

    /** The deferred removal of the temporary name, whose own failure is ignored. */
    method RemoveTemp(temp: Name, removed: bool)
      modifies this`names
      ensures names == if removed then old(names) - {temp} else old(names)
    {
      if removed {
        names := names - {temp};
      }
    }

    /** No file that was there is touched, and no name but the temporary one. */
    ghost predicate OnlyTempLeft(before: Disk, temp: Name, removed: bool)
      reads this
    {
      && names - {temp} == before.names - {temp} && (removed ==> temp !in names)
      && forall i :: i in before.inodes ==> i in inodes && inodes[i] == before.inodes[i]
    }

    /** Both writers up to the commit: a complete file under the temporary name, or what a failing call leaves. */
    method Prepare(temp: Name, inode: nat, data: string, mode: nat, fault: Option<Call>, removed: bool) returns (ok: bool)
      requires temp !in names && inode !in inodes
      modifies this`names, this`inodes
      ensures ok <==> fault.None? || fault.value.AtCommit?
      ensures ok ==> names == old(names)[temp := inode] && inodes == old(inodes)[inode := File(data, mode)]
      ensures !ok ==> OnlyTempLeft(old(Abstract()), temp, removed)
    {
      if fault == Some(AtTemp) {
        return false;
      }
      CreateTemp(temp, inode);
      ok := FillTemp(inode, data, mode, fault);
      if !ok {
        RemoveTemp(temp, removed);
      }
    }

    /**
     * Atomic.  The link the caller named survives; the file it leads to is replaced by a new inode
     * that keeps the old mode.  A failing call leaves everything but the temporary name as it was.
     * `temp` and `inode` are the kernel's choices, `fault` is the call that fails, and `removed`
     * says whether the temporary name can be removed.
     */
    method Atomic(path: Name, data: string, defaultMode: nat, temp: Name, inode: nat, fault: Option<Call>, removed: bool)
      returns (result: Result<Name, Failure>)
      requires ValidDisk(Abstract()) && temp !in names && temp !in links && inode !in inodes
      requires forall k :: k in links ==> links[k] != temp
      requires path != temp
      modifies this`names, this`inodes
      ensures result.Ok? <==> fault.None? && exists k: nat, target :: k < MAX_HOPS && ResolvesAt(links, unreadable, path, k, target)
      ensures result.Err? ==> OnlyTempLeft(old(Abstract()), temp, removed)
      ensures result.Ok? ==>
                && (exists k: nat :: k < MAX_HOPS && ResolvesAt(links, unreadable, path, k, result.value))
                && Abstract() == Written(old(Abstract()), result.value, inode, data, KeptMode(old(Abstract()), result.value, defaultMode))
    {
      hide ResolvesAt, Chain;
      result := Resolve(path);
      if result.Err? {
        return;
      }
      var target := result.value;
      ghost var hops: nat :| hops < MAX_HOPS && ResolvesAt(links, unreadable, path, hops, target);
      TargetNotTemp(path, temp, target);
      var mode := defaultMode;
      if target in names {
        mode := inodes[names[target]].mode;
      }
      var ok := Prepare(temp, inode, data, mode, fault, removed);
      if !ok {
        return Err(CallFailed);
      }
      if fault == Some(AtCommit) {
        RemoveTemp(temp, removed);
        return Err(CallFailed);
      }
      assert inodes[inode] == File(data, mode);
      names := names[target := names[temp]] - {temp};
      RemoveTemp(temp, removed);
      assert hops < MAX_HOPS && ResolvesAt(links, unreadable, path, hops, result.value);
    }

    /** AtomicNew: refuses an existing target, otherwise links the finished file into place. */
    method AtomicNew(path: Name, data: string, mode: nat, temp: Name, inode: nat, fault: Option<Call>, removed: bool)
      returns (result: Result<Name, Failure>)
      requires ValidDisk(Abstract()) && temp !in names && temp !in links && inode !in inodes
      requires forall k :: k in links ==> links[k] != temp
      requires path != temp
      modifies this`names, this`inodes
      ensures result.Ok? <==>
                fault.None? && exists k: nat, target :: k < MAX_HOPS && ResolvesAt(links, unreadable, path, k, target) && target !in old(names)
      ensures result.Err? ==> OnlyTempLeft(old(Abstract()), temp, removed)
      ensures result == Err(Exists) ==>
                exists k: nat, target :: k < MAX_HOPS && ResolvesAt(links, unreadable, path, k, target) && target in old(names)
      ensures result.Ok? ==>
                && (exists k: nat :: k < MAX_HOPS && ResolvesAt(links, unreadable, path, k, result.value))
                && result.value !in old(names)
                && inodes == old(inodes)[inode := File(data, mode)]
                && names == (if removed then old(names) else old(names)[temp := inode])[result.value := inode]
    {
      hide ResolvesAt, Chain;
      result := Resolve(path);
      if result.Err? {
        return;
      }
      var target := result.value;
      ghost var hops: nat :| hops < MAX_HOPS && ResolvesAt(links, unreadable, path, hops, target);
      TargetNotTemp(path, temp, target);
      if target in names {
        TargetUnique(path, hops, target);
        return Err(Exists);
      }
      var ok := Prepare(temp, inode, data, mode, fault, removed);
      if !ok {
        return Err(CallFailed);
      }
      if fault == Some(AtCommit) {
        RemoveTemp(temp, removed);
        return Err(CallFailed);
      }
      names := names[target := names[temp]];
      RemoveTemp(temp, removed);
      assert hops < MAX_HOPS && ResolvesAt(links, unreadable, path, hops, result.value);
    }

    /** A path resolves to one target only. */
    lemma TargetUnique(path: Name, k: nat, target: Name)
      requires ResolvesAt(links, unreadable, path, k, target)
      ensures forall j: nat, other :: ResolvesAt(links, unreadable, path, j, other) ==> other == target
    {
      forall j: nat, other | ResolvesAt(links, unreadable, path, j, other)
        ensures other == target
      {
        if j < k {
          ChainDefined(links, path, k, j);
        } else if k < j {
          ChainDefined(links, path, j, k);
        }
      }
    }

    lemma TargetNotTemp(path: Name, temp: Name, target: Name)
      requires path != temp && forall k :: k in links ==> links[k] != temp
      requires exists k: nat :: ResolvesAt(links, unreadable, path, k, target)
      ensures target != temp
    {
      var k: nat :| ResolvesAt(links, unreadable, path, k, target);
      if k > 0 {
        assert Chain(links, path, k - 1).Some?;
      }
    }
  }

  /** The disk after one write ran alone: the target leads to a new, complete file; no other name moved. */
  function Written(d: Disk, target: Name, inode: nat, data: string, mode: nat): Disk {
    Disk(d.names[target := inode], d.inodes[inode := File(data, mode)])
  }

  function KeptMode(d: Disk, target: Name, defaultMode: nat): nat {
    if Read(d, target).Some? then Read(d, target).value.mode else defaultMode
  }

  // ---------------------------------------------------------------- the sequential run is a run of the protocol

  function SoloTrace(job: Job, inode: nat): seq<Move> {
    [Move(0, Begin), Move(0, MakeTemp(inode)), Move(0, Chmod)]
    + (if job.data == "" then [] else [Move(0, WriteChunk(|job.data|))])
    + [Move(0, Close), Move(0, Commit), Move(0, RemoveTemp(true))]
  }

  lemma RunExtend(jobs: seq<Job>, s: State, trace: seq<Move>, action: Action)
    requires |jobs| == |s.phases| == 1 && Run(jobs, s, trace).Some?
    ensures Run(jobs, s, trace + [Move(0, action)]) == Step(jobs, Run(jobs, s, trace).value, 0, action)
  {
    assert (trace + [Move(0, action)])[..|trace|] == trace;
  }

  /** The steps of a lone writer lead from any valid disk to success and the sequential result. */
  lemma SoloCompletes(job: Job, d0: Disk, inode: nat)
    requires ValidDisk(d0) && FreshTemps([job], d0) && inode !in d0.inodes
    requires job.kind == CreateNew ==> job.target !in d0.names
    ensures var run := Run([job], Initial([job], d0), SoloTrace(job, inode));
            && run.Some? && run.value.commits == [0] && run.value.phases == [Finished(true)]
            && run.value.disk == Written(d0, job.target, inode, job.data, KeptMode(d0, job.target, job.mode))
  {
    hide Run, ValidDisk, Step;
    var mode := KeptMode(d0, job.target, job.mode);
    assert job.temp != job.target by { assert [job][0].temp != [job][0].target; }
    assert job.temp !in d0.names by { assert [job][0].temp !in d0.names; }
    var t3 := [Move(0, Begin), Move(0, MakeTemp(inode)), Move(0, Chmod)];
    SoloOpens(job, d0, inode);
    var t4 := t3 + (if job.data == "" then [] else [Move(0, WriteChunk(|job.data|))]);
    SoloWrites(job, d0, inode, mode, t3);
    SoloPublishes(job, d0, inode, mode, t4, SoloState(job, d0, inode, mode, |job.data|));
    assert t4 + [Move(0, Close)] + [Move(0, Commit)] + [Move(0, RemoveTemp(true))] == SoloTrace(job, inode);
  }

  /** The lone writer with its first k characters written. */
  function SoloState(job: Job, d0: Disk, inode: nat, mode: nat, k: nat): State
    requires k <= |job.data|
  {
    State(Disk(d0.names[job.temp := inode], d0.inodes[inode := File(job.data[..k], mode)]),
          [Writing(inode, mode, k)], [], map[inode := 0])
  }

  lemma SoloOpens(job: Job, d0: Disk, inode: nat)
    requires ValidDisk(d0) && inode !in d0.inodes && job.temp != job.target && job.temp !in d0.names
    requires job.kind == CreateNew ==> job.target !in d0.names
    ensures Run([job], Initial([job], d0), [Move(0, Begin), Move(0, MakeTemp(inode)), Move(0, Chmod)])
            == Some(SoloState(job, d0, inode, KeptMode(d0, job.target, job.mode), 0))
  {
    var jobs, s0 := [job], Initial([job], d0);
    var mode := KeptMode(d0, job.target, job.mode);
    assert Run(jobs, s0, []) == Some(s0);
    hide Run;
    var s1 := s0.(phases := [Ready(mode)]);
    RunExtend(jobs, s0, [], Begin);
    assert s0.phases[0 := Ready(mode)] == s1.phases;
    RunExtend(jobs, s0, [Move(0, Begin)], MakeTemp(inode));
    RunExtend(jobs, s0, [Move(0, Begin), Move(0, MakeTemp(inode))], Chmod);
    var s3 := Step(jobs, Step(jobs, s1, 0, MakeTemp(inode)).value, 0, Chmod).value;
    assert s3.disk.inodes == d0.inodes[inode := File("", mode)];
    assert s3.phases == [Writing(inode, mode, 0)];
    assert [] + [Move(0, Begin)] + [Move(0, MakeTemp(inode))] + [Move(0, Chmod)]
        == [Move(0, Begin), Move(0, MakeTemp(inode)), Move(0, Chmod)];
  }

  lemma SoloWrites(job: Job, d0: Disk, inode: nat, mode: nat, t3: seq<Move>)
    requires Run([job], Initial([job], d0), t3) == Some(SoloState(job, d0, inode, mode, 0))
    ensures var t4 := t3 + (if job.data == "" then [] else [Move(0, WriteChunk(|job.data|))]);
            Run([job], Initial([job], d0), t4) == Some(SoloState(job, d0, inode, mode, |job.data|))
  {
    hide Run;
    if job.data == "" {
      assert t3 + [] == t3;
    } else {
      var s3, s4 := SoloState(job, d0, inode, mode, 0), SoloState(job, d0, inode, mode, |job.data|);
      RunExtend([job], Initial([job], d0), t3, WriteChunk(|job.data|));
      assert "" + job.data[0..|job.data|] == job.data[..|job.data|];
      assert s3.phases[0 := Writing(inode, mode, |job.data|)] == s4.phases;
      assert s3.disk.inodes[inode := File(job.data[..|job.data|], mode)] == s4.disk.inodes;
    }
  }

  lemma SoloPublishes(job: Job, d0: Disk, inode: nat, mode: nat, t4: seq<Move>, s4: State)
    requires ValidDisk(d0) && inode !in d0.inodes && job.temp != job.target && job.temp !in d0.names
    requires job.kind == CreateNew ==> job.target !in d0.names
    requires s4 == SoloState(job, d0, inode, mode, |job.data|)
    requires Run([job], Initial([job], d0), t4) == Some(s4)
    ensures var run := Run([job], Initial([job], d0), t4 + [Move(0, Close)] + [Move(0, Commit)] + [Move(0, RemoveTemp(true))]);
            && run.Some? && run.value.commits == [0] && run.value.phases == [Finished(true)]
            && run.value.disk == Written(d0, job.target, inode, job.data, mode)
  {
    hide Run;
    assert job.data[..|job.data|] == job.data;
    var jobs, s0 := [job], Initial([job], d0);
    RunExtend(jobs, s0, t4, Close);
    var t5 := t4 + [Move(0, Close)];
    assert s4.phases[0 := Closed(inode, mode)] == [Closed(inode, mode)];
    assert Run(jobs, s0, t5) == Some(s4.(phases := [Closed(inode, mode)]));
    RunExtend(jobs, s0, t5, Commit);
    var t6 := t5 + [Move(0, Commit)];
    var s6 := Run(jobs, s0, t6).value;
    assert s6.phases[0] == Leaving(inode, mode, true);
    assert s6.phases == [Leaving(inode, mode, true)] && s6.commits == [0];
    RunExtend(jobs, s0, t6, RemoveTemp(true));
    assert Unlink(s6.disk, job.temp).names == d0.names[job.target := inode];
  }
}
