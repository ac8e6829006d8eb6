/**
 The review gate: an append-only log of review attempts, the fingerprint skip rule and the
 max_attempts budget (internal/service/backend/review.go).

 The gate is described twice.  `Step` gives the new state and the reply of one request as a
 function; the class `ReviewService` is the imperative form, and its methods are proved to make
 exactly those steps.  The theorems speak about `Play`, the state after any sequence of requests.
 */
module ReviewGate {
  import opened Wrappers

  datatype Status = Pending | InProgress | Blocked | Complete | Superseded

  /** One row of the attempt log. */
  datatype Attempt = Attempt(fingerprint: string, passed: bool)

  /** What the gate's command did: `failed` means the runner returned an error. */
  datatype CommandRun = CommandRun(failed: bool, exitCode: Option<int>)

  /** A workflow definition for the gate; maxAttempts is 0 when no budget is configured. */
  datatype Gate = Gate(runnable: bool, maxAttempts: nat, newFingerprint: bool)

  datatype State = State(log: seq<Attempt>, status: Option<Status>)

  datatype Event =
    | Run(fingerprint: string, run: CommandRun, stored: bool, worked: bool)
    | Note(status: Status, worked: bool)
    | Work(status: Status)

  datatype Outcome = Executed | SkippedAssessed | SkippedExhausted | Noted

  datatype Reply =
    | Refused
    | Reviewed(status: Status, attemptsRun: nat, passingRuns: nat, outcome: Outcome)

  const EMPTY := State([], None)

  predicate CommandPassed(run: CommandRun) {
    !run.failed || run.exitCode == Some(0)
  }

  /** The store refuses an attempt whose exit code is outside 0..255. */
  predicate Persisted(run: CommandRun, stored: bool) {
    stored && (run.exitCode.Some? ==> 0 <= run.exitCode.value <= 255)
  }

  function Latest(log: seq<Attempt>): Option<Attempt> {
    if log == [] then None else Some(log[|log| - 1])
  }

  /** The most recent attempt at this fingerprint, looking backwards from the end of the log. */
  function LatestAt(log: seq<Attempt>, fingerprint: string): Option<Attempt> {
    if log == [] then None
    else if log[|log| - 1].fingerprint == fingerprint then Some(log[|log| - 1])
    else LatestAt(log[..|log| - 1], fingerprint)
  }

  function Passing(log: seq<Attempt>): nat {
    if log == [] then 0
    else Passing(log[..|log| - 1]) + if log[|log| - 1].passed then 1 else 0
  }

  function Answer(s: State, status: Status, worked: bool, outcome: Outcome): (State, Reply) {
    if worked
    then (s.(status := Some(status)), Reviewed(status, |s.log|, Passing(s.log), outcome))
    else (s, Refused)
  }

  function Execute(s: State, fingerprint: string, run: CommandRun, stored: bool, worked: bool): (State, Reply) {
    if !Persisted(run, stored) then (s, Refused)
    else
      var passed := CommandPassed(run);
      var s' := s.(log := s.log + [Attempt(fingerprint, passed)]);
      Answer(s', if passed then Complete else Blocked, worked, Executed)
  }

  function Step(gate: Option<Gate>, s: State, e: Event): (State, Reply) {
    match e
    case Work(status) => (s.(status := Some(status)), Refused)
    case Note(status, worked) =>
      if gate.Some? && gate.value.runnable && status == Complete then (s, Refused)
      else Answer(s, status, worked, Noted)
    case Run(fingerprint, run, stored, worked) =>
      if gate.None? || !gate.value.runnable then (s, Refused)
      else
        var prior := if gate.value.newFingerprint then LatestAt(s.log, fingerprint) else None;
        match prior
        case Some(a) =>
          if a.passed then Answer(s, Complete, worked, SkippedAssessed)
          else Execute(s, fingerprint, run, stored, worked)
        case None =>
          if 0 < gate.value.maxAttempts <= |s.log| then Answer(s, Blocked, worked, SkippedExhausted)
          else Execute(s, fingerprint, run, stored, worked)
  }

  /** The state after a sequence of requests. */
  function Play(gate: Option<Gate>, s: State, events: seq<Event>): State {
    if events == [] then s
    else Step(gate, Play(gate, s, events[..|events| - 1]), events[|events| - 1]).0
  }

  ghost function Reached(gate: Option<Gate>, events: seq<Event>): State {
    Play(gate, EMPTY, events)
  }

  // ---------------------------------------------------------------- the imperative form

  /** Counts the passing attempts with the loop of countPassingReviewAttempts. */
  method CountPassing(attempts: seq<Attempt>) returns (total: nat)
    ensures total == Passing(attempts)
  {
    total := 0;
    for i := 0 to |attempts|
      invariant total == Passing(attempts[..i])
    {
      assert attempts[..i + 1][..i] == attempts[..i];
      if attempts[i].passed {
        total := total + 1;
      }
    }
    assert attempts[..|attempts|] == attempts;
  }

  /** The service's state for one review key: the stored attempts and the task's recorded status. */
  class ReviewService {
    const gate: Option<Gate>
    var attempts: seq<Attempt>
    var status: Option<Status>

    ghost function Abstract(): State
      reads this
    {
      State(attempts, status)
    }

    constructor (gate: Option<Gate>)
      ensures this.gate == gate && Abstract() == EMPTY
    {
      this.gate := gate;
      attempts := [];
      status := None;
    }

    /** Records the task status; fails without effect when the store does. */
    method UpdateSnapshot(newStatus: Status, worked: bool) returns (ok: bool)
      modifies this`status
      ensures ok == worked
      ensures status == if worked then Some(newStatus) else old(status)
    {
      if worked {
        status := Some(newStatus);
      }
      return worked;
    }

    /** A review without run=true: stores the caller's status as a note. */
    method RecordNote(newStatus: Status, worked: bool) returns (reply: Reply)
      modifies this
      ensures (Abstract(), reply) == Step(gate, old(Abstract()), Note(newStatus, worked))
    {
      var attemptsRun := |attempts|;
      var passingRuns := CountPassing(attempts);
      if gate.Some? && gate.value.runnable && newStatus == Complete {
        return Refused;
      }
      var ok := UpdateSnapshot(newStatus, worked);
      if !ok {
        return Refused;
      }
      return Reviewed(newStatus, attemptsRun, passingRuns, Noted);
    }

    /** A review with run=true.  `stored` and `worked` say whether the two writes succeed. */
    method Review(fingerprint: string, run: CommandRun, stored: bool, worked: bool) returns (reply: Reply)
      modifies this
      ensures (Abstract(), reply) == Step(gate, old(Abstract()), Run(fingerprint, run, stored, worked))
    {
      hide LatestAt, Execute;
      var attemptsRun := |attempts|;
      var passingRuns := CountPassing(attempts);
      if gate.None? || !gate.value.runnable {
        return Refused;
      }
      var execute := false;
      if gate.value.newFingerprint {
        var prior := LatestAt(attempts, fingerprint);
        if prior.Some? {
          if !prior.value.passed {
            execute := true;
          } else {
            var ok := UpdateSnapshot(Complete, worked);
            if !ok {
              return Refused;
            }
            return Reviewed(Complete, attemptsRun, passingRuns, SkippedAssessed);
          }
        }
      }
      if !execute && 0 < gate.value.maxAttempts <= attemptsRun {
        var ok := UpdateSnapshot(Blocked, worked);
        if !ok {
          return Refused;
        }
        return Reviewed(Blocked, attemptsRun, passingRuns, SkippedExhausted);
      }
      reply := ExecuteReview(fingerprint, run, stored, worked, attemptsRun, passingRuns);
    }

    /** From the label executeReview on: the attempt is stored, then the task's status. */
    method ExecuteReview(fingerprint: string, run: CommandRun, stored: bool, worked: bool, attemptsRun: nat, passingRuns: nat)
      returns (reply: Reply)
      requires attemptsRun == |attempts| && passingRuns == Passing(attempts)
      modifies this
      ensures (Abstract(), reply) == Execute(old(Abstract()), fingerprint, run, stored, worked)
    {
      var passed := CommandPassed(run);
      if !Persisted(run, stored) {
        return Refused;
      }
      var attempt := Attempt(fingerprint, passed);
      assert (attempts + [attempt])[..|attempts|] == attempts;
      attempts := attempts + [attempt];
      var taskStatus := if passed then Complete else Blocked;
      var ok := UpdateSnapshot(taskStatus, worked);
      if !ok {
        return Refused;
      }
      return Reviewed(taskStatus, attemptsRun + 1, passingRuns + (if passed then 1 else 0), Executed);
    }
  }

  // ---------------------------------------------------------------- what every run keeps

  ghost predicate NewFingerprintRule(gate: Option<Gate>) {
    gate.Some? && gate.value.newFingerprint
  }

  /** The only way past the budget: the rule is on and the last attempt at this fingerprint failed. */
  predicate RerunsFailure(gate: Option<Gate>, log: seq<Attempt>, fingerprint: string) {
    gate.Some? && gate.value.newFingerprint && LatestAt(log, fingerprint).Some?
    && !LatestAt(log, fingerprint).value.passed
  }

  function Fingerprints(log: seq<Attempt>): set<string> {
    set i | 0 <= i < |log| :: log[i].fingerprint
  }

  function PassedFingerprints(log: seq<Attempt>): set<string> {
    set i | 0 <= i < |log| && log[i].passed :: log[i].fingerprint
  }

  /** A passing attempt is the last one at its fingerprint; hence there is at most one of them. */
  ghost predicate PassIsLast(log: seq<Attempt>) {
    forall i, j :: 0 <= i < j < |log| && log[i].fingerprint == log[j].fingerprint ==> !log[i].passed
  }

  lemma {:induction false} LatestAtMeaning(log: seq<Attempt>, fp: string)
    ensures LatestAt(log, fp).None? <==> fp !in Fingerprints(log)
    ensures LatestAt(log, fp).Some? ==>
              exists i :: 0 <= i < |log| && log[i] == LatestAt(log, fp).value && log[i].fingerprint == fp
                          && forall j :: i < j < |log| ==> log[j].fingerprint != fp
  {
    if log != [] {
      var n := |log| - 1;
      var front, a := log[..n], log[n];
      assert log == front + [a];
      FingerprintsOfAppend(front, a);
      if a.fingerprint != fp {
        LatestAtMeaning(front, fp);
        assert LatestAt(log, fp) == LatestAt(front, fp);
        if LatestAt(front, fp).Some? {
          var i :| 0 <= i < n && front[i] == LatestAt(front, fp).value && front[i].fingerprint == fp
                   && forall j :: i < j < n ==> front[j].fingerprint != fp;
          assert log[i] == LatestAt(log, fp).value;
        }
      }
    }
  }

  /** Every request extends the log by at most one attempt and rewrites nothing. */
  lemma StepAppends(gate: Option<Gate>, s: State, e: Event)
    ensures var s' := Step(gate, s, e).0;
            s'.log == s.log ||
            (e.Run? && Persisted(e.run, e.stored) &&
             s'.log == s.log + [Attempt(e.fingerprint, CommandPassed(e.run))])
  {
  }

  lemma {:induction false} LogOnlyGrows(gate: Option<Gate>, s: State, events: seq<Event>, i: nat)
    requires i <= |events|
    ensures Play(gate, s, events[..i]).log <= Play(gate, s, events).log
  {
    if i == |events| {
      assert events[..i] == events;
    } else {
      var front := events[..|events| - 1];
      assert front[..i] == events[..i];
      LogOnlyGrows(gate, s, front, i);
      StepAppends(gate, Play(gate, s, front), events[|events| - 1]);
    }
  }

  /** The counts a reply reports are the counts of the log it leaves behind. */
  lemma ReplyCounts(gate: Option<Gate>, s: State, e: Event)
    ensures var (s', reply) := Step(gate, s, e);
            reply.Reviewed? ==> reply.attemptsRun == |s'.log| && reply.passingRuns == Passing(s'.log)
                                && s'.status == Some(reply.status)
  {
  }

  lemma {:induction false} PassIsLastAlways(gate: Option<Gate>, events: seq<Event>)
    requires NewFingerprintRule(gate)
    ensures PassIsLast(Reached(gate, events).log)
  {
    if events != [] {
      var front, e := events[..|events| - 1], events[|events| - 1];
      var s := Reached(gate, front);
      PassIsLastAlways(gate, front);
      StepAppends(gate, s, e);
      if e.Run? {
        LatestAtMeaning(s.log, e.fingerprint);
        var log' := Reached(gate, events).log;
        if log' != s.log {
          forall i | 0 <= i < |s.log| && s.log[i].fingerprint == e.fingerprint
            ensures !s.log[i].passed
          {
            assert s.log[i].fingerprint in Fingerprints(s.log);
          }
        }
      }
    }
  }

  /** Of a fingerprint's attempts in such a log the latest passed exactly if any did. */
  lemma LatestTellsPass(log: seq<Attempt>, fp: string)
    requires PassIsLast(log)
    ensures LatestAt(log, fp).Some? ==> (LatestAt(log, fp).value.passed <==> fp in PassedFingerprints(log))
    ensures LatestAt(log, fp).None? ==> fp !in PassedFingerprints(log)
  {
    LatestAtMeaning(log, fp);
    if LatestAt(log, fp).Some? {
      var i :| 0 <= i < |log| && log[i] == LatestAt(log, fp).value && log[i].fingerprint == fp
               && forall j :: i < j < |log| ==> log[j].fingerprint != fp;
      if fp in PassedFingerprints(log) {
        var k :| 0 <= k < |log| && log[k].passed && log[k].fingerprint == fp;
        assert k == i;
      }
    }
  }

  /** A fingerprint the log has is run again unless it passed; any other needs an unused attempt. */
  predicate Executes(gate: Gate, log: seq<Attempt>, fp: string) {
    if gate.newFingerprint && fp in Fingerprints(log) then fp !in PassedFingerprints(log)
    else gate.maxAttempts == 0 || |log| < gate.maxAttempts
  }

  ghost predicate Seen(log: seq<Attempt>, fp: string) {
    exists i :: 0 <= i < |log| && log[i].fingerprint == fp
  }

  ghost predicate SeenPassing(log: seq<Attempt>, fp: string) {
    exists i :: 0 <= i < |log| && log[i].fingerprint == fp && log[i].passed
  }

  /** The effect and the reply of a run request, once it is known which of the four cases it falls into. */
  ghost predicate Replied(s: State, s': State, reply: Reply, worked: bool, status: Status, outcome: Outcome) {
    if worked
    then s'.status == Some(status) && reply == Reviewed(status, |s'.log|, Passing(s'.log), outcome)
    else s'.status == s.status && reply == Refused
  }

  /**
   * A run request on a reachable log.  Under the rule a fingerprint that passed is complete without
   * a run, and one that only failed runs whatever the budget; another runs while the budget lasts
   * and is blocked after it.  A run passes when the runner reports no error or the exit code is 0,
   * and is logged if the store takes it, which it does for exit codes 0 to 255.
   */
  lemma RunExactly(gate: Gate, events: seq<Event>, e: Event)
    requires gate.runnable && e.Run?
    ensures var s := Reached(Some(gate), events);
            var (s', reply) := Step(Some(gate), s, e);
            var passed := !e.run.failed || e.run.exitCode == Some(0);
            if gate.newFingerprint && SeenPassing(s.log, e.fingerprint) then
              s'.log == s.log && Replied(s, s', reply, e.worked, Complete, SkippedAssessed)
            else if !(gate.newFingerprint && Seen(s.log, e.fingerprint)) && gate.maxAttempts > 0 && |s.log| >= gate.maxAttempts then
              s'.log == s.log && Replied(s, s', reply, e.worked, Blocked, SkippedExhausted)
            else if StoreRefuses(e) then
              s' == s && reply == Refused
            else
              && s'.log == s.log + [Attempt(e.fingerprint, passed)]
              && Replied(s, s', reply, e.worked, if passed then Complete else Blocked, Executed)
  {
    hide Passing, Fingerprints, PassedFingerprints;
    var s := Reached(Some(gate), events);
    SeenAsSets(s.log, e.fingerprint);
    if gate.newFingerprint {
      PassIsLastAlways(Some(gate), events);
      LatestAtMeaning(s.log, e.fingerprint);
      LatestTellsPass(s.log, e.fingerprint);
    }
  }

  lemma SeenAsSets(log: seq<Attempt>, fp: string)
    ensures Seen(log, fp) <==> fp in Fingerprints(log)
    ensures SeenPassing(log, fp) <==> fp in PassedFingerprints(log)
  {
  }

  /** A note is refused when it would complete a runnable gate; otherwise it sets the status and runs nothing. */
  lemma NoteExactly(gate: Option<Gate>, s: State, e: Event)
    requires e.Note?
    ensures var (s', reply) := Step(gate, s, e);
            && s'.log == s.log
            && (if (gate.Some? && gate.value.runnable && e.status == Complete) || !e.worked then s' == s && reply == Refused
                else s'.status == Some(e.status) && reply == Reviewed(e.status, |s.log|, Passing(s.log), Noted))
  {
  }

  /** An update of the plan sets the status and nothing else. */
  lemma WorkExactly(gate: Option<Gate>, s: State, status: Status)
    ensures var s' := Step(gate, s, Work(status)).0; s'.log == s.log && s'.status == Some(status)
  {
  }

  /** A run request is refused without effect where no command is configured. */
  lemma NothingToRun(gate: Option<Gate>, s: State, e: Event)
    requires e.Run? && (gate.None? || !gate.value.runnable)
    ensures Step(gate, s, e) == (s, Refused)
  {
  }

  /** When the command is run, and when the gate is reported complete, said of the log as a set. */
  lemma ExecutesExactly(gate: Gate, events: seq<Event>, e: Event)
    requires gate.runnable && e.Run?
    ensures var s := Reached(Some(gate), events);
            var (s', reply) := Step(Some(gate), s, e);
            && (s'.log != s.log <==> Executes(gate, s.log, e.fingerprint) && Persisted(e.run, e.stored))
            && (reply.Reviewed? && reply.status == Complete <==>
                e.worked && ((gate.newFingerprint && e.fingerprint in PassedFingerprints(s.log))
                             || (s'.log != s.log && CommandPassed(e.run))))
  {
    var s := Reached(Some(gate), events);
    if gate.newFingerprint {
      PassIsLastAlways(Some(gate), events);
      LatestAtMeaning(s.log, e.fingerprint);
      LatestTellsPass(s.log, e.fingerprint);
    }
  }

  /** Distinct fingerprints never exceed the budget: only an unseen one is charged against it. */
  lemma {:induction false} FingerprintsWithinBudget(gate: Option<Gate>, events: seq<Event>)
    requires NewFingerprintRule(gate) && 0 < gate.value.maxAttempts
    ensures |Fingerprints(Reached(gate, events).log)| <= gate.value.maxAttempts
  {
    if events != [] {
      var front, e := events[..|events| - 1], events[|events| - 1];
      var s := Reached(gate, front);
      FingerprintsWithinBudget(gate, front);
      StepAppends(gate, s, e);
      var log' := Reached(gate, events).log;
      if log' != s.log {
        LatestAtMeaning(s.log, e.fingerprint);
        assert log'[..|s.log|] == s.log;
        FingerprintsOfAppend(s.log, log'[|s.log|]);
        FingerprintsAtMostLength(s.log);
      }
    }
  }

  lemma FingerprintsOfAppend(log: seq<Attempt>, a: Attempt)
    ensures Fingerprints(log + [a]) == Fingerprints(log) + {a.fingerprint}
    ensures PassedFingerprints(log + [a]) == PassedFingerprints(log) + if a.passed then {a.fingerprint} else {}
  {
    var log' := log + [a];
    assert log'[|log|] == a;
    forall fp | fp in Fingerprints(log)
      ensures fp in Fingerprints(log')
    {
      var i :| 0 <= i < |log| && log[i].fingerprint == fp;
      assert log'[i] == log[i];
    }
    forall fp | fp in PassedFingerprints(log)
      ensures fp in PassedFingerprints(log')
    {
      var i :| 0 <= i < |log| && log[i].passed && log[i].fingerprint == fp;
      assert log'[i] == log[i];
    }
  }

  lemma {:induction false} FingerprintsAtMostLength(log: seq<Attempt>)
    ensures |Fingerprints(log)| <= |log|
  {
    if log != [] {
      var n := |log| - 1;
      FingerprintsAtMostLength(log[..n]);
      FingerprintsOfAppend(log[..n], log[n]);
      assert log[..n] + [log[n]] == log;
    }
  }

  /** When passes are last, the passing attempts and the passed fingerprints are in bijection. */
  lemma {:induction false} PassingCountsFingerprints(log: seq<Attempt>)
    requires PassIsLast(log)
    ensures Passing(log) == |PassedFingerprints(log)|
    ensures PassedFingerprints(log) <= Fingerprints(log)
  {
    if log != [] {
      var n := |log| - 1;
      var front, a := log[..n], log[n];
      assert log == front + [a];
      assert PassIsLast(front);
      PassingCountsFingerprints(front);
      FingerprintsOfAppend(front, a);
      PassIsLastFresh(front, a);
      assert Passing(log) == Passing(front) + if a.passed then 1 else 0;
    }
  }

  lemma PassIsLastFresh(front: seq<Attempt>, a: Attempt)
    requires PassIsLast(front + [a])
    ensures a.fingerprint !in PassedFingerprints(front)
  {
    var log := front + [a];
    forall i | 0 <= i < |front| && front[i].passed
      ensures front[i].fingerprint != a.fingerprint
    {
      assert log[i] == front[i] && log[|front|] == a;
    }
  }

  /** With the rule on, the budget bounds the fingerprints assessed and the passing runs. */
  lemma BudgetUnderFingerprintRule(gate: Option<Gate>, events: seq<Event>)
    requires NewFingerprintRule(gate) && 0 < gate.value.maxAttempts
    ensures var log := Reached(gate, events).log;
            PassIsLast(log) && |Fingerprints(log)| <= gate.value.maxAttempts
            && Passing(log) <= gate.value.maxAttempts
  {
    var log := Reached(gate, events).log;
    PassIsLastAlways(gate, events);
    FingerprintsWithinBudget(gate, events);
    PassingCountsFingerprints(log);
    SubsetSize(PassedFingerprints(log), Fingerprints(log));
  }

  lemma SubsetSize<T>(a: set<T>, b: set<T>)
    requires a <= b
    ensures |a| <= |b|
  {
    assert |b| == |a| + |b - a| by { assert a + (b - a) == b; }
  }

  // ---------------------------------------------------------------- when the budget bounds attempts

  /** Request i of the run re-executes a failed fingerprint after the budget is used up. */
  ghost predicate OverBudgetRerun(gate: Option<Gate>, events: seq<Event>, i: nat)
    requires i < |events|
  {
    var e, log := events[i], Reached(gate, events[..i]).log;
    && gate.Some? && gate.value.runnable && e.Run? && Persisted(e.run, e.stored)
    && gate.value.maxAttempts <= |log| && RerunsFailure(gate, log, e.fingerprint)
  }

  /** The attempts stay within max_attempts exactly when no failed fingerprint is re-run at the limit. */
  lemma {:induction false} AttemptBudgetExactly(gate: Option<Gate>, events: seq<Event>)
    requires gate.Some? && 0 < gate.value.maxAttempts
    ensures |Reached(gate, events).log| <= gate.value.maxAttempts
            <==> forall i | 0 <= i < |events| :: !OverBudgetRerun(gate, events, i)
  {
    if events != [] {
      var n := |events| - 1;
      var front := events[..n];
      AttemptBudgetExactly(gate, front);
      forall i | 0 <= i < n
        ensures OverBudgetRerun(gate, front, i) == OverBudgetRerun(gate, events, i)
      {
        assert front[..i] == events[..i];
      }
      StepAppends(gate, Reached(gate, front), events[n]);
      assert OverBudgetRerun(gate, events, n) ==> |Reached(gate, events).log| > gate.value.maxAttempts;
    }
  }

  /** With the rule off nothing re-runs a failure past the budget, so it bounds every attempt. */
  lemma AttemptBudgetWithoutRule(gate: Option<Gate>, events: seq<Event>)
    requires gate.Some? && !gate.value.newFingerprint && 0 < gate.value.maxAttempts
    ensures |Reached(gate, events).log| <= gate.value.maxAttempts
  {
    AttemptBudgetExactly(gate, events);
  }

  /** With the rule on no bound on attempts exists: a failing command can be re-run n times. */
  lemma {:induction false} AttemptsUnbounded(n: nat) returns (events: seq<Event>)
    ensures var log := Reached(Some(Gate(true, 1, true)), events).log;
            |log| == n && forall i :: 0 <= i < n ==> log[i] == Attempt("f", false)
  {
    if n == 0 {
      events := [];
    } else {
      var front := AttemptsUnbounded(n - 1);
      events := front + [Run("f", CommandRun(true, Some(1)), true, true)];
      assert events[..|front|] == front;
    }
  }

  /** A run whose attempt the store does not take. */
  predicate StoreRefuses(e: Event) {
    e.Run? && (!e.stored || (e.run.exitCode.Some? && !(0 <= e.run.exitCode.value <= 255)))
  }

  /** Attempts that the store refuses, such as exit codes above 255, use no budget, however many commands ran. */
  lemma {:induction false} RefusedRunsUseNoBudget(gate: Option<Gate>, s: State, events: seq<Event>)
    requires forall i :: 0 <= i < |events| ==> StoreRefuses(events[i])
    ensures Play(gate, s, events).log == s.log
  {
    if events != [] {
      var n := |events| - 1;
      RefusedRunsUseNoBudget(gate, s, events[..n]);
      StepAppends(gate, Play(gate, s, events[..n]), events[n]);
    }
  }

  // ---------------------------------------------------------------- what Done later reads

  /** The pass a runnable gate needs at closeout (completion.go, lines 196-225). */
  predicate GateSatisfied(gate: Gate, log: seq<Attempt>, fingerprint: string) {
    var a := if gate.newFingerprint then LatestAt(log, fingerprint) else Latest(log);
    a.Some? && a.value.passed
  }

  /** Under the rule the last attempt at the fingerprint passed, without it the last attempt did. */
  ghost predicate LogShowsPass(gate: Gate, log: seq<Attempt>, fingerprint: string) {
    if gate.newFingerprint
    then exists i :: 0 <= i < |log| && log[i] == Attempt(fingerprint, true)
                     && forall j :: i < j < |log| ==> log[j].fingerprint != fingerprint
    else log != [] && log[|log| - 1].passed
  }

  lemma SatisfiedExactly(gate: Gate, log: seq<Attempt>, fingerprint: string)
    ensures GateSatisfied(gate, log, fingerprint) <==> LogShowsPass(gate, log, fingerprint)
  {
    LatestAtMeaning(log, fingerprint);
    if gate.newFingerprint {
      if i :| 0 <= i < |log| && log[i] == Attempt(fingerprint, true) && forall j :: i < j < |log| ==> log[j].fingerprint != fingerprint {
        assert log[i].fingerprint in Fingerprints(log);
        var k :| 0 <= k < |log| && log[k] == LatestAt(log, fingerprint).value && log[k].fingerprint == fingerprint
                 && forall j :: k < j < |log| ==> log[j].fingerprint != fingerprint;
        assert i == k;
      }
    }
  }

  /** A run that is reported complete leaves the pass that Done asks for. */
  lemma CompleteMeansSatisfied(gate: Gate, events: seq<Event>, e: Event)
    requires e.Run?
    ensures var (s', reply) := Step(Some(gate), Reached(Some(gate), events), e);
            reply.Reviewed? && reply.status == Complete ==>
              s'.status == Some(Complete) && GateSatisfied(gate, s'.log, e.fingerprint)
  {
  }

  /** Under the rule a pass is permanent: no later request, at any fingerprint, takes it away. */
  lemma {:induction false} PassIsPermanent(gate: Gate, s: State, later: seq<Event>, fingerprint: string)
    requires gate.newFingerprint && GateSatisfied(gate, s.log, fingerprint)
    ensures GateSatisfied(gate, Play(Some(gate), s, later).log, fingerprint)
  {
    if later != [] {
      var front, e := later[..|later| - 1], later[|later| - 1];
      var t := Play(Some(gate), s, front);
      PassIsPermanent(gate, s, front, fingerprint);
      StepAppends(Some(gate), t, e);
      var log' := Play(Some(gate), s, later).log;
      if log' != t.log {
        assert log'[..|log'| - 1] == t.log;
      }
    }
  }

  /** Without the rule a pass is lost at the next failing attempt, and only then. */
  lemma PassLostExactly(gate: Gate, s: State, e: Event, fingerprint: string)
    requires !gate.newFingerprint && GateSatisfied(gate, s.log, fingerprint)
    ensures var s' := Step(Some(gate), s, e).0;
            !GateSatisfied(gate, s'.log, fingerprint)
            <==> gate.runnable && e.Run? && Persisted(e.run, e.stored) && e.run.failed && e.run.exitCode != Some(0)
                 && (gate.maxAttempts == 0 || |s.log| < gate.maxAttempts)
  {
    StepAppends(Some(gate), s, e);
  }

  /** A satisfied gate was earned: some earlier run request really passed, never a note or a work update. */
  lemma {:induction false} SatisfactionIsEarned(gate: Gate, events: seq<Event>, fingerprint: string)
    requires GateSatisfied(gate, Reached(Some(gate), events).log, fingerprint)
    ensures exists i :: 0 <= i < |events| && events[i].Run? && (!events[i].run.failed || events[i].run.exitCode == Some(0))
                        && (gate.newFingerprint ==> events[i].fingerprint == fingerprint)
  {
    if events != [] {
      var n := |events| - 1;
      var front, e := events[..n], events[n];
      var s := Reached(Some(gate), front);
      StepAppends(Some(gate), s, e);
      var log' := Reached(Some(gate), events).log;
      if GateSatisfied(gate, s.log, fingerprint) {
        SatisfactionIsEarned(gate, front, fingerprint);
        var i :| 0 <= i < n && front[i].Run? && (!front[i].run.failed || front[i].run.exitCode == Some(0))
                 && (gate.newFingerprint ==> front[i].fingerprint == fingerprint);
        assert events[i] == front[i];
      } else {
        assert log' != s.log;
        assert log'[..|log'| - 1] == s.log;
        assert events[n].Run?;
      }
    }
  }
}
