/**
  The job status poller (`filter_is_done`): waits on the outstanding jobs,
  yields each finished job's task with its normalized record exactly once, and
  when the wait call raises the recognised "code 24" failure, queries every
  outstanding job and yields a synthetic temporary-failure record for each one
  that is found finished, failed or undeterminable.

  The session is an oracle: `waits` is the sequence of answers the wait calls
  receive, in order, and `jobStatus(round, key)` is the answer to the point
  status query for `key` made while recovering from the wait call numbered
  `round`. A run that uses up `waits` while jobs remain stops there.
 */
module Poller {
  import opened Wrappers
  import opened Drmaa
  import opened JobInfo

  /** How one call of the poller ends. */
  datatype Stop =
    | NoJobsLeft       // the loop condition failed: every job was yielded
    | TimedOut         // the wait call timed out: the expected end of a polling cycle
    | Raised(error: Error)
    | WaitsExhausted   // the wait answers of the model ran out while jobs remain

  /** The failures the poller propagates. */
  datatype Error =
    | InvalidJobRuntimeError       // "Should not be waiting on non-existent jobs."
    | UnknownJobId(jobId: JobId)   // a finished job that is not outstanding (the pop fails)
    | NakedRaised(message: string) // a naked exception without the "code 24" signature
    | OtherRaised                  // a failure that is not an `Exception`

  /** The outcome of one poller call: the records yielded per job id, the jobs left, the stop and the wait calls made. */
  datatype RunResult = RunResult(
    yielded: map<JobKey, NormalizedJobInfo>,
    remaining: map<JobKey, Task>,
    stop: Stop,
    waitCalls: nat)

  /** The recognised signature of the spurious failure: the message starts with "code 24". */
  predicate IsCode24(message: string) {
    "code 24" <= message
  }

  /** The wait answers that end the loop. */
  predicate StopsLoop(w: WaitOutcome) {
    w.WaitTimeout? || w.WaitInvalidJob? || w.OtherException? || (w.NakedException? && !IsCode24(w.message))
  }

  /** The state recovery assigns to a job: a failed query counts as failed or undetermined. */
  function RecoveryState(q: QueryResult): JobState {
    match q
    case Status(s) => s
    case QueryInvalidJob => Failed
    case QueryFailed => Undetermined
  }

  /** The states after which recovery fabricates a failure record. */
  predicate IsTerminal(s: JobState) {
    s == Done || s == Failed || s == Undetermined
  }

  /** The outstanding ids recovery removes in the round after wait call `round`. */
  function RecoverKeys(m: map<JobKey, Task>, round: nat, jobStatus: (nat, JobKey) -> QueryResult): set<JobKey> {
    set k | k in m.Keys && IsTerminal(RecoveryState(jobStatus(round, k)))
  }

  /** A temporary-failure record for each of `keys`. */
  function TempFailRecords(keys: set<JobKey>): map<JobKey, NormalizedJobInfo> {
    map k | k in keys :: TempFailInfo()
  }

  /** Adds records yielded before the rest of a run. */
  function Prepend(before: map<JobKey, NormalizedJobInfo>, r: RunResult): RunResult {
    r.(yielded := before + r.yielded)
  }

  /** Every task of the map is stored under its own job id. */
  predicate KeyedByJobId(m: map<JobKey, Task>) {
    forall k :: k in m ==> m[k].drmJobId == k
  }

  /** What one iteration of the loop does with one wait answer. */
  datatype StepResult =
    | Halt(stop: Stop)
    | Continue(batch: map<JobKey, NormalizedJobInfo>, next: map<JobKey, Task>)

  /**
    One iteration of the loop on the outstanding map `m`, given the answer `w`
    of wait call number `round`: yield the finished job, stop, or recover from
    the "code 24" failure.
   */
  function Step(m: map<JobKey, Task>, w: WaitOutcome, round: nat,
                jobStatus: (nat, JobKey) -> QueryResult, toKb: real -> real): (s: StepResult)
    ensures s.Continue? <==> !StopsLoop(w) && (w.JobFinished? ==> Some(w.info.jobId) in m)
  {
    match w
    case JobFinished(info) =>
      var k := Some(info.jobId);
      if k in m then Continue(map[k := ParseJobInfo(info, toKb)], m - {k})
      else Halt(Raised(UnknownJobId(info.jobId)))
    case WaitTimeout => Halt(TimedOut)
    case WaitInvalidJob => Halt(Raised(InvalidJobRuntimeError))
    case NakedException(message) =>
      if !IsCode24(message) then Halt(Raised(NakedRaised(message)))
      else
        var failed := RecoverKeys(m, round, jobStatus);
        Continue(TempFailRecords(failed), m - failed)
    case OtherException => Halt(Raised(OtherRaised))
  }

  /** `small` is `big` restricted to some of its keys. */
  predicate SubMap(small: map<JobKey, Task>, big: map<JobKey, Task>) {
    forall k :: k in small ==> k in big && small[k] == big[k]
  }

  /**
    Wait answer `w` is what ended a run with `stop` and the jobs `remaining`:
    a timeout answer for a timeout, the invalid-job answer for the runtime
    error, the naked exception without the "code 24" signature for its
    re-raise, a finished job that is not outstanding for the failed pop, and a
    failure that is not an `Exception` for its propagation.
   */
  predicate CausedBy(stop: Stop, w: WaitOutcome, remaining: map<JobKey, Task>) {
    match stop
    case TimedOut => w == WaitTimeout
    case Raised(InvalidJobRuntimeError) => w == WaitInvalidJob
    case Raised(OtherRaised) => w == OtherException
    case Raised(NakedRaised(message)) => w == NakedException(message) && !IsCode24(message)
    case Raised(UnknownJobId(id)) => w.JobFinished? && w.info.jobId == id && Some(id) !in remaining
    case _ => false
  }

  /**
    A loop iteration that goes on yields a record for exactly the ids it
    removes from the map and keeps the other jobs as they were.
   */
  lemma StepContinues(m: map<JobKey, Task>, w: WaitOutcome, round: nat,
                      jobStatus: (nat, JobKey) -> QueryResult, toKb: real -> real)
    ensures var s := Step(m, w, round, jobStatus, toKb);
      s.Continue? ==>
        && s.batch.Keys * s.next.Keys == {}
        && s.batch.Keys + s.next.Keys == m.Keys
        && SubMap(s.next, m)
  {
  }

  /** A loop iteration that halts is caused by its answer. */
  lemma StepHalts(m: map<JobKey, Task>, w: WaitOutcome, round: nat,
                  jobStatus: (nat, JobKey) -> QueryResult, toKb: real -> real)
    ensures var s := Step(m, w, round, jobStatus, toKb);
      s.Halt? ==> CausedBy(s.stop, w, m)
  {
  }

  /**
    The reference outcome of the poller on the outstanding map `m`, from wait
    call number `i` on.
   */
  function Run(m: map<JobKey, Task>, waits: seq<WaitOutcome>, i: nat,
               jobStatus: (nat, JobKey) -> QueryResult, toKb: real -> real): (r: RunResult)
    requires i <= |waits|
    ensures i <= r.waitCalls <= |waits|
    ensures r.stop == WaitsExhausted ==> r.waitCalls == |waits|
    decreases |waits| - i
  {
    if |m| == 0 then RunResult(map[], m, NoJobsLeft, i)
    else if i == |waits| then RunResult(map[], m, WaitsExhausted, i)
    else
      match Step(m, waits[i], i, jobStatus, toKb)
      case Halt(stop) => RunResult(map[], m, stop, i + 1)
      case Continue(batch, next) => Prepend(batch, Run(next, waits, i + 1, jobStatus, toKb))
  }

  /** Every id of `m` is either yielded or still outstanding in `r`, not both, and the jobs left are those of `m`. */
  predicate Accounts(m: map<JobKey, Task>, r: RunResult) {
    && r.yielded.Keys * r.remaining.Keys == {}
    && r.yielded.Keys + r.remaining.Keys == m.Keys
    && SubMap(r.remaining, m)
  }

  /** A run that goes on accounts for the ids of this step and of the rest. */
  lemma PrependAccounts(m: map<JobKey, Task>, batch: map<JobKey, NormalizedJobInfo>, next: map<JobKey, Task>, rest: RunResult)
    requires batch.Keys * next.Keys == {} && batch.Keys + next.Keys == m.Keys && SubMap(next, m)
    requires Accounts(next, rest)
    ensures Accounts(m, Prepend(batch, rest))
  {
    assert Prepend(batch, rest).yielded.Keys == batch.Keys + rest.yielded.Keys;
  }

  /**
    Every outstanding id is accounted for exactly once: either yielded or
    still outstanding, and the jobs left are those of the initial map.
   */
  lemma {:induction false} RunAccounts(m: map<JobKey, Task>, waits: seq<WaitOutcome>, i: nat,
                                       jobStatus: (nat, JobKey) -> QueryResult, toKb: real -> real)
    requires i <= |waits|
    ensures Accounts(m, Run(m, waits, i, jobStatus, toKb))
    decreases |waits| - i
  {
    if |m| != 0 && i < |waits| {
      StepContinues(m, waits[i], i, jobStatus, toKb);
      match Step(m, waits[i], i, jobStatus, toKb)
      case Halt(_) =>
      case Continue(batch, next) =>
        RunAccounts(next, waits, i + 1, jobStatus, toKb);
        PrependAccounts(m, batch, next, Run(next, waits, i + 1, jobStatus, toKb));
    }
  }

  /** A run ends with no jobs left exactly when nothing remains outstanding. */
  lemma {:induction false} RunEndsEmpty(m: map<JobKey, Task>, waits: seq<WaitOutcome>, i: nat,
                                        jobStatus: (nat, JobKey) -> QueryResult, toKb: real -> real)
    requires i <= |waits|
    ensures var r := Run(m, waits, i, jobStatus, toKb);
      r.stop == NoJobsLeft <==> r.remaining == map[]
    decreases |waits| - i
  {
    if |m| != 0 && i < |waits| {
      match Step(m, waits[i], i, jobStatus, toKb)
      case Halt(_) =>
      case Continue(batch, next) => RunEndsEmpty(next, waits, i + 1, jobStatus, toKb);
    }
  }

  /** A run that halts at an iteration ends there, with the jobs as they were. */
  lemma RunOnHalt(m: map<JobKey, Task>, waits: seq<WaitOutcome>, i: nat,
                  jobStatus: (nat, JobKey) -> QueryResult, toKb: real -> real)
    requires |m| != 0 && i < |waits|
    requires Step(m, waits[i], i, jobStatus, toKb).Halt?
    ensures Run(m, waits, i, jobStatus, toKb) == RunResult(map[], m, Step(m, waits[i], i, jobStatus, toKb).stop, i + 1)
  {
  }

  /** A run that goes on at an iteration is that iteration's records before the rest of the run. */
  lemma RunOnContinue(m: map<JobKey, Task>, waits: seq<WaitOutcome>, i: nat,
                      jobStatus: (nat, JobKey) -> QueryResult, toKb: real -> real)
    requires |m| != 0 && i < |waits|
    requires Step(m, waits[i], i, jobStatus, toKb).Continue?
    ensures var s := Step(m, waits[i], i, jobStatus, toKb);
      Run(m, waits, i, jobStatus, toKb) == Prepend(s.batch, Run(s.next, waits, i + 1, jobStatus, toKb))
  {
  }

  /** If `r` times out or raises, it does so at its last wait call, caused by that call's answer. */
  predicate StopCaused(waits: seq<WaitOutcome>, i: nat, r: RunResult) {
    r.stop.TimedOut? || r.stop.Raised? ==>
      i < r.waitCalls <= |waits| && CausedBy(r.stop, waits[r.waitCalls - 1], r.remaining)
  }

  /** A run that halts at its first iteration stops there, caused by that iteration's answer. */
  lemma RunStopCauseHalt(m: map<JobKey, Task>, waits: seq<WaitOutcome>, i: nat,
                         jobStatus: (nat, JobKey) -> QueryResult, toKb: real -> real)
    requires |m| != 0 && i < |waits|
    requires Step(m, waits[i], i, jobStatus, toKb).Halt?
    ensures StopCaused(waits, i, Run(m, waits, i, jobStatus, toKb))
  {
    var stop := Step(m, waits[i], i, jobStatus, toKb).stop;
    StepHalts(m, waits[i], i, jobStatus, toKb);
    RunOnHalt(m, waits, i, jobStatus, toKb);
    assert CausedBy(stop, waits[i], m);
  }

  /** A run that goes on at its first iteration stops as the rest of it does. */
  lemma RunStopCauseContinue(m: map<JobKey, Task>, waits: seq<WaitOutcome>, i: nat,
                             jobStatus: (nat, JobKey) -> QueryResult, toKb: real -> real)
    requires |m| != 0 && i < |waits|
    requires Step(m, waits[i], i, jobStatus, toKb).Continue?
    requires StopCaused(waits, i + 1, Run(Step(m, waits[i], i, jobStatus, toKb).next, waits, i + 1, jobStatus, toKb))
    ensures StopCaused(waits, i, Run(m, waits, i, jobStatus, toKb))
  {
    var s := Step(m, waits[i], i, jobStatus, toKb);
    var rest := Run(s.next, waits, i + 1, jobStatus, toKb);
    RunOnContinue(m, waits, i, jobStatus, toKb);
    StopCausedLater(waits, i, s.batch, rest);
  }

  /** The stop of the rest of a run is caused as the stop of the whole run. */
  lemma StopCausedLater(waits: seq<WaitOutcome>, i: nat, batch: map<JobKey, NormalizedJobInfo>, rest: RunResult)
    requires StopCaused(waits, i + 1, rest)
    ensures StopCaused(waits, i, Prepend(batch, rest))
  {
  }

  /**
    A run ends on a timeout or an error only at its last wait call, caused by
    that call's answer while the jobs it leaves remain outstanding.
   */
  lemma {:induction false} RunStopCause(m: map<JobKey, Task>, waits: seq<WaitOutcome>, i: nat,
                                        jobStatus: (nat, JobKey) -> QueryResult, toKb: real -> real)
    requires i <= |waits|
    ensures StopCaused(waits, i, Run(m, waits, i, jobStatus, toKb))
    decreases |waits| - i
  {
    if |m| != 0 && i < |waits| {
      var s := Step(m, waits[i], i, jobStatus, toKb);
      if s.Halt? {
        RunStopCauseHalt(m, waits, i, jobStatus, toKb);
      } else {
        RunStopCause(s.next, waits, i + 1, jobStatus, toKb);
        RunStopCauseContinue(m, waits, i, jobStatus, toKb);
      }
    }
  }

  /**
    No wait answer before a run's last one ends the loop: none is a timeout,
    the invalid-job answer, a naked exception without "code 24" or a failure
    that is not an `Exception`, and each finished job one reports was
    outstanding, so the run yields it.
   */
  lemma {:induction false} RunNoEarlyStop(m: map<JobKey, Task>, waits: seq<WaitOutcome>, i: nat, j: nat,
                                          jobStatus: (nat, JobKey) -> QueryResult, toKb: real -> real)
    requires i <= j < |waits|
    requires j < Run(m, waits, i, jobStatus, toKb).waitCalls - 1
    ensures !StopsLoop(waits[j])
    ensures waits[j].JobFinished? ==> Some(waits[j].info.jobId) in Run(m, waits, i, jobStatus, toKb).yielded
    decreases |waits| - i
  {
    if |m| != 0 && i < |waits| {
      var s := Step(m, waits[i], i, jobStatus, toKb);
      if s.Continue? {
        RunOnContinue(m, waits, i, jobStatus, toKb);
        var rest := Run(s.next, waits, i + 1, jobStatus, toKb);
        if j != i {
          RunNoEarlyStop(s.next, waits, i + 1, j, jobStatus, toKb);
          assert waits[j].JobFinished? ==> Some(waits[j].info.jobId) in s.batch + rest.yielded;
        } else if waits[j].JobFinished? {
          assert Some(waits[j].info.jobId) in s.batch;
        }
      } else {
        RunOnHalt(m, waits, i, jobStatus, toKb);
      }
    }
  }

  /** Wait answer `j` was the "code 24" failure and its recovery round found job `k` dead. */
  predicate RecoveredAt(waits: seq<WaitOutcome>, j: nat, k: JobKey, jobStatus: (nat, JobKey) -> QueryResult)
    requires j < |waits|
  {
    waits[j].NakedException? && IsCode24(waits[j].message) && IsTerminal(RecoveryState(jobStatus(j, k)))
  }

  /** Record `info` for job `k` is justified by wait answer `j`: it reported `k` finished, or its recovery round found `k` dead. */
  predicate JustifiedBy(waits: seq<WaitOutcome>, j: nat, k: JobKey, info: NormalizedJobInfo,
                        jobStatus: (nat, JobKey) -> QueryResult, toKb: real -> real)
    requires j < |waits|
  {
    || (waits[j].JobFinished? && Some(waits[j].info.jobId) == k && info == ParseJobInfo(waits[j].info, toKb))
    || (RecoveredAt(waits, j, k, jobStatus) && info == TempFailInfo())
  }

  /** Every record a run yields is justified by one of its wait answers. */
  predicate Justified(r: RunResult, waits: seq<WaitOutcome>, i: nat,
                      jobStatus: (nat, JobKey) -> QueryResult, toKb: real -> real)
  {
    forall k :: k in r.yielded ==>
      exists j :: i <= j < r.waitCalls && j < |waits| && JustifiedBy(waits, j, k, r.yielded[k], jobStatus, toKb)
  }

  /** The records of one loop iteration are justified by its wait answer. */
  lemma StepJustified(m: map<JobKey, Task>, waits: seq<WaitOutcome>, i: nat,
                      jobStatus: (nat, JobKey) -> QueryResult, toKb: real -> real)
    requires i < |waits|
    ensures var s := Step(m, waits[i], i, jobStatus, toKb);
      s.Continue? ==> forall k :: k in s.batch ==> JustifiedBy(waits, i, k, s.batch[k], jobStatus, toKb)
  {
  }

  /**
    Where each yielded record comes from: the normalized accounting record of
    a wait call that reported that job finished, or the temporary-failure
    record of a "code 24" recovery round whose status query found that job
    finished, failed or undeterminable.
   */
  lemma {:induction false} RunRecords(m: map<JobKey, Task>, waits: seq<WaitOutcome>, i: nat,
                                      jobStatus: (nat, JobKey) -> QueryResult, toKb: real -> real)
    requires i <= |waits|
    ensures Justified(Run(m, waits, i, jobStatus, toKb), waits, i, jobStatus, toKb)
    decreases |waits| - i
  {
    if |m| != 0 && i < |waits| {
      StepJustified(m, waits, i, jobStatus, toKb);
      match Step(m, waits[i], i, jobStatus, toKb)
      case Halt(_) =>
      case Continue(batch, next) =>
        var rest := Run(next, waits, i + 1, jobStatus, toKb);
        RunRecords(next, waits, i + 1, jobStatus, toKb);
        PrependJustified(batch, rest, waits, i, jobStatus, toKb);
    }
  }

  /** Records justified in this step and in the rest of the run are justified in the whole run. */
  lemma PrependJustified(batch: map<JobKey, NormalizedJobInfo>, rest: RunResult, waits: seq<WaitOutcome>, i: nat,
                         jobStatus: (nat, JobKey) -> QueryResult, toKb: real -> real)
    requires i < |waits| && i < rest.waitCalls
    requires forall k :: k in batch ==> JustifiedBy(waits, i, k, batch[k], jobStatus, toKb)
    requires Justified(rest, waits, i + 1, jobStatus, toKb)
    ensures Justified(Prepend(batch, rest), waits, i, jobStatus, toKb)
  {
    var r := Prepend(batch, rest);
    forall k | k in r.yielded
      ensures exists j :: i <= j < r.waitCalls && j < |waits| && JustifiedBy(waits, j, k, r.yielded[k], jobStatus, toKb)
    {
      if k !in rest.yielded {
        assert JustifiedBy(waits, i, k, r.yielded[k], jobStatus, toKb);
      }
    }
  }

  /**
    A "code 24" failure while every outstanding job is found finished, failed
    or undeterminable yields every one of them with the temporary-failure
    record and leaves nothing outstanding, after a single wait call.
   */
  lemma AllDeadRecovered(m: map<JobKey, Task>, waits: seq<WaitOutcome>,
                         jobStatus: (nat, JobKey) -> QueryResult, toKb: real -> real)
    requires |m| > 0 && |waits| > 0
    requires waits[0].NakedException? && IsCode24(waits[0].message)
    requires forall k :: k in m ==> IsTerminal(RecoveryState(jobStatus(0, k)))
    ensures Run(m, waits, 0, jobStatus, toKb) == RunResult(TempFailRecords(m.Keys), map[], NoJobsLeft, 1)
  {
    assert RecoverKeys(m, 0, jobStatus) == m.Keys;
    assert m - m.Keys == map[];
    assert TempFailRecords(m.Keys) + map[] == TempFailRecords(m.Keys);
  }

  /** Records yielded in two stretches of a run. */
  lemma PrependTwice(first: map<JobKey, NormalizedJobInfo>, second: map<JobKey, NormalizedJobInfo>, r: RunResult)
    ensures Prepend(first, Prepend(second, r)) == Prepend(first + second, r)
  {
    assert first + (second + r.yielded) == (first + second) + r.yielded;
  }

  /**
    The dict comprehension `{t.drm_jobID: t for t in tasks}`: one entry per job
    id of the tasks, each holding the last task with that id.
   */
  function JobIdToTask(tasks: seq<Task>): (r: map<JobKey, Task>)
    ensures KeyedByJobId(r)
    decreases |tasks|
  {
    if tasks == [] then map[]
    else
      var front, last := tasks[..|tasks| - 1], tasks[|tasks| - 1];
      assert tasks == front + [last];
      JobIdToTask(front)[last.drmJobId := last]
  }

  /** Each entry of `out` is the task stored in `tasks` under an id of `records`, with that id's record. */
  predicate YieldsFrom(out: seq<(Task, NormalizedJobInfo)>, tasks: map<JobKey, Task>, records: map<JobKey, NormalizedJobInfo>) {
    forall a :: 0 <= a < |out| ==>
      && out[a].0.drmJobId in records && out[a].0.drmJobId in tasks
      && out[a].0 == tasks[out[a].0.drmJobId] && out[a].1 == records[out[a].0.drmJobId]
  }

  /** No job id is yielded twice. */
  predicate YieldsOnce(out: seq<(Task, NormalizedJobInfo)>) {
    forall a, b :: 0 <= a < b < |out| ==> out[a].0.drmJobId != out[b].0.drmJobId
  }

  /** Every id of `records` is yielded. */
  predicate YieldsAll(out: seq<(Task, NormalizedJobInfo)>, records: map<JobKey, NormalizedJobInfo>) {
    forall k :: k in records ==> exists a :: 0 <= a < |out| && out[a].0.drmJobId == k
  }

  /**
    `out` yields, once each and in some order, the task stored in `tasks`
    under each id of `records` with that id's record.
   */
  predicate Yields(out: seq<(Task, NormalizedJobInfo)>, tasks: map<JobKey, Task>, records: map<JobKey, NormalizedJobInfo>) {
    YieldsFrom(out, tasks, records) && YieldsOnce(out) && YieldsAll(out, records)
  }

  lemma YieldsFromAppend(out1: seq<(Task, NormalizedJobInfo)>, out2: seq<(Task, NormalizedJobInfo)>,
                         tasks: map<JobKey, Task>, r1: map<JobKey, NormalizedJobInfo>, r2: map<JobKey, NormalizedJobInfo>)
    requires YieldsFrom(out1, tasks, r1) && YieldsFrom(out2, tasks, r2)
    requires r1.Keys * r2.Keys == {}
    ensures YieldsFrom(out1 + out2, tasks, r1 + r2)
  {
    var out := out1 + out2;
    forall a | 0 <= a < |out|
      ensures out[a].0.drmJobId in r1 + r2 && out[a].0.drmJobId in tasks
      ensures out[a].0 == tasks[out[a].0.drmJobId] && out[a].1 == (r1 + r2)[out[a].0.drmJobId]
    {
      if a < |out1| {
        var k := out1[a].0.drmJobId;
        assert out[a] == out1[a] && k in r1;
        assert k !in r1.Keys * r2.Keys;
      } else {
        assert out[a] == out2[a - |out1|];
      }
    }
  }

  lemma YieldsOnceAppend(out1: seq<(Task, NormalizedJobInfo)>, out2: seq<(Task, NormalizedJobInfo)>,
                         tasks: map<JobKey, Task>, r1: map<JobKey, NormalizedJobInfo>, r2: map<JobKey, NormalizedJobInfo>)
    requires YieldsFrom(out1, tasks, r1) && YieldsFrom(out2, tasks, r2)
    requires YieldsOnce(out1) && YieldsOnce(out2)
    requires r1.Keys * r2.Keys == {}
    ensures YieldsOnce(out1 + out2)
  {
    var out := out1 + out2;
    forall a, b | 0 <= a < b < |out|
      ensures out[a].0.drmJobId != out[b].0.drmJobId
    {
      if b >= |out1| {
        assert out[b] == out2[b - |out1|];
        if a >= |out1| {
          assert out[a] == out2[a - |out1|];
        } else {
          assert out[a] == out1[a];
          var ka, kb := out[a].0.drmJobId, out[b].0.drmJobId;
          assert ka in r1 && kb in r2;
          assert ka !in r1.Keys * r2.Keys;
        }
      } else {
        assert out[a] == out1[a] && out[b] == out1[b];
      }
    }
  }

  lemma YieldsAllAppend(out1: seq<(Task, NormalizedJobInfo)>, out2: seq<(Task, NormalizedJobInfo)>,
                        r1: map<JobKey, NormalizedJobInfo>, r2: map<JobKey, NormalizedJobInfo>)
    requires YieldsAll(out1, r1) && YieldsAll(out2, r2)
    ensures YieldsAll(out1 + out2, r1 + r2)
  {
    var out := out1 + out2;
    forall k | k in r1 + r2
      ensures exists a :: 0 <= a < |out| && out[a].0.drmJobId == k
    {
      if k in r2 {
        var a :| 0 <= a < |out2| && out2[a].0.drmJobId == k;
        assert out[|out1| + a] == out2[a];
      } else {
        var a :| 0 <= a < |out1| && out1[a].0.drmJobId == k;
        assert out[a] == out1[a];
      }
    }
  }

  /** Yielding two stretches one after the other yields the records of both. */
  lemma YieldsAppend(out1: seq<(Task, NormalizedJobInfo)>, out2: seq<(Task, NormalizedJobInfo)>,
                     tasks: map<JobKey, Task>, r1: map<JobKey, NormalizedJobInfo>, r2: map<JobKey, NormalizedJobInfo>)
    requires Yields(out1, tasks, r1) && Yields(out2, tasks, r2)
    requires r1.Keys * r2.Keys == {}
    ensures Yields(out1 + out2, tasks, r1 + r2)
  {
    YieldsFromAppend(out1, out2, tasks, r1, r2);
    YieldsOnceAppend(out1, out2, tasks, r1, r2);
    YieldsAllAppend(out1, out2, r1, r2);
  }

  /** One task yielded with its record. */
  lemma YieldsOne(tasks: map<JobKey, Task>, k: JobKey, info: NormalizedJobInfo)
    requires k in tasks && tasks[k].drmJobId == k
    ensures Yields([(tasks[k], info)], tasks, map[k := info])
  {
    var out := [(tasks[k], info)];
    assert out[0].0.drmJobId == k;
  }

  /**
    The "code 24" recovery round after wait call `round`: queries the status of
    every outstanding job, in the map's own (unspecified) order, pops each job
    found finished, failed or undeterminable, and collects it with a
    temporary-failure record.
   */
  method Recover(m: map<JobKey, Task>, round: nat, jobStatus: (nat, JobKey) -> QueryResult)
    returns (rest: map<JobKey, Task>, failedJobs: seq<(Task, NormalizedJobInfo)>)
    requires KeyedByJobId(m)
    ensures rest == m - RecoverKeys(m, round, jobStatus)
    ensures Yields(failedJobs, m, TempFailRecords(RecoverKeys(m, round, jobStatus)))
  {
    rest, failedJobs := m, [];
    var pending := m.Keys;
    ghost var done: set<JobKey> := {};
    while pending != {}
      invariant RecoverInv(m, round, jobStatus, pending, done, rest, failedJobs)
      decreases pending
    {
      var jobid :| jobid in pending;
      var state := RecoveryState(jobStatus(round, jobid));
      if IsTerminal(state) {
        var info := CreateEmptyJobInfo(EX_TEMPFAIL);
        RecoverPops(m, round, jobStatus, pending, done, rest, failedJobs, jobid);
        failedJobs := failedJobs + [(rest[jobid], info)];
        rest := rest - {jobid};
        done := done + {jobid};
      } else {
        RecoverKeeps(m, round, jobStatus, pending, done, rest, failedJobs, jobid);
      }
      pending := pending - {jobid};
    }
    assert done == RecoverKeys(m, round, jobStatus);
  }

  /**
    Halfway through the recovery round: of the ids not `pending` any more,
    those found dead (`done`) have been popped from `rest` and collected.
   */
  predicate RecoverInv(m: map<JobKey, Task>, round: nat, jobStatus: (nat, JobKey) -> QueryResult,
                       pending: set<JobKey>, done: set<JobKey>, rest: map<JobKey, Task>,
                       failedJobs: seq<(Task, NormalizedJobInfo)>)
  {
    && KeyedByJobId(m)
    && pending <= m.Keys
    && done == RecoverKeys(m, round, jobStatus) - pending
    && rest == m - done
    && Yields(failedJobs, m, TempFailRecords(done))
  }

  /** Querying a job found dead pops it and collects it. */
  lemma RecoverPops(m: map<JobKey, Task>, round: nat, jobStatus: (nat, JobKey) -> QueryResult,
                    pending: set<JobKey>, done: set<JobKey>, rest: map<JobKey, Task>,
                    failedJobs: seq<(Task, NormalizedJobInfo)>, jobid: JobKey)
    requires RecoverInv(m, round, jobStatus, pending, done, rest, failedJobs)
    requires jobid in pending && IsTerminal(RecoveryState(jobStatus(round, jobid)))
    ensures jobid in rest
    ensures RecoverInv(m, round, jobStatus, pending - {jobid}, done + {jobid}, rest - {jobid},
                       failedJobs + [(rest[jobid], CreateEmptyJobInfo(EX_TEMPFAIL))])
  {
    var info := CreateEmptyJobInfo(EX_TEMPFAIL);
    YieldsOne(m, jobid, info);
    TempFailRecordsAdd(done, jobid);
    YieldsAppend(failedJobs, [(m[jobid], info)], m, TempFailRecords(done), map[jobid := info]);
  }

  /** Querying a job not found dead leaves it outstanding. */
  lemma RecoverKeeps(m: map<JobKey, Task>, round: nat, jobStatus: (nat, JobKey) -> QueryResult,
                     pending: set<JobKey>, done: set<JobKey>, rest: map<JobKey, Task>,
                     failedJobs: seq<(Task, NormalizedJobInfo)>, jobid: JobKey)
    requires RecoverInv(m, round, jobStatus, pending, done, rest, failedJobs)
    requires jobid in pending && !IsTerminal(RecoveryState(jobStatus(round, jobid)))
    ensures RecoverInv(m, round, jobStatus, pending - {jobid}, done, rest, failedJobs)
  {
  }

  /** One more temporary-failure record. */
  lemma TempFailRecordsAdd(keys: set<JobKey>, k: JobKey)
    requires k !in keys
    ensures TempFailRecords(keys) + map[k := TempFailInfo()] == TempFailRecords(keys + {k})
    ensures TempFailRecords(keys).Keys * map[k := TempFailInfo()].Keys == {}
  {
  }

  /**
    The map holds an entry for exactly the job ids of the tasks, each entry is
    one of the tasks, and a task whose id no later task repeats is the one
    stored under its id.
   */
  lemma {:induction false} JobIdToTaskContents(tasks: seq<Task>)
    ensures var r := JobIdToTask(tasks);
      && r.Keys == (set t | t in tasks :: t.drmJobId)
      && (forall k :: k in r ==> r[k] in tasks)
      && (forall i :: 0 <= i < |tasks| && (forall j :: i < j < |tasks| ==> tasks[j].drmJobId != tasks[i].drmJobId) ==>
            r[tasks[i].drmJobId] == tasks[i])
    decreases |tasks|
  {
    if tasks != [] {
      var front, last := tasks[..|tasks| - 1], tasks[|tasks| - 1];
      assert tasks == front + [last];
      JobIdToTaskContents(front);
      var r, rf := JobIdToTask(tasks), JobIdToTask(front);
      assert r == rf[last.drmJobId := last];
      forall k | k in r
        ensures r[k] in tasks
      {
        if k != last.drmJobId {
          assert rf[k] in front;
        }
      }
      forall i | 0 <= i < |tasks| && (forall j :: i < j < |tasks| ==> tasks[j].drmJobId != tasks[i].drmJobId)
        ensures r[tasks[i].drmJobId] == tasks[i]
      {
        if i < |front| {
          assert tasks[i] == front[i];
          assert forall j :: i < j < |front| ==> front[j] == tasks[j];
        }
      }
    }
  }

  /** A task yielded from a part of the map is yielded from the whole map. */
  lemma YieldsWiden(out: seq<(Task, NormalizedJobInfo)>, small: map<JobKey, Task>, big: map<JobKey, Task>,
                    records: map<JobKey, NormalizedJobInfo>)
    requires Yields(out, small, records) && SubMap(small, big)
    ensures Yields(out, big, records)
  {
  }

  /**
    Halfway through a poller call on `initial`: the records `got` have been
    yielded as `yielded`, the jobs `jobidToTask` are outstanding after
    `waitCalls` wait calls, and the rest of the reference run from here
    completes the reference run from the start.
   */
  predicate PollInv(initial: map<JobKey, Task>, waits: seq<WaitOutcome>,
                    jobStatus: (nat, JobKey) -> QueryResult, toKb: real -> real,
                    jobidToTask: map<JobKey, Task>, got: map<JobKey, NormalizedJobInfo>,
                    yielded: seq<(Task, NormalizedJobInfo)>, waitCalls: nat)
  {
    && waitCalls <= |waits|
    && KeyedByJobId(initial)
    && SubMap(jobidToTask, initial)
    && got.Keys * jobidToTask.Keys == {}
    && Run(initial, waits, 0, jobStatus, toKb) == Prepend(got, Run(jobidToTask, waits, waitCalls, jobStatus, toKb))
    && Yields(yielded, initial, got)
  }

  /** Before the first wait call nothing is yielded. */
  lemma PollStarts(initial: map<JobKey, Task>, waits: seq<WaitOutcome>,
                   jobStatus: (nat, JobKey) -> QueryResult, toKb: real -> real)
    requires KeyedByJobId(initial)
    ensures PollInv(initial, waits, jobStatus, toKb, initial, map[], [], 0)
  {
    var r := Run(initial, waits, 0, jobStatus, toKb);
    assert map[] + r.yielded == r.yielded;
  }

  /** An iteration that goes on yields its records and continues the reference run. */
  lemma PollContinues(initial: map<JobKey, Task>, waits: seq<WaitOutcome>,
                      jobStatus: (nat, JobKey) -> QueryResult, toKb: real -> real,
                      jobidToTask: map<JobKey, Task>, got: map<JobKey, NormalizedJobInfo>,
                      yielded: seq<(Task, NormalizedJobInfo)>, waitCalls: nat,
                      out: seq<(Task, NormalizedJobInfo)>)
    requires PollInv(initial, waits, jobStatus, toKb, jobidToTask, got, yielded, waitCalls)
    requires |jobidToTask| > 0 && waitCalls < |waits|
    requires Step(jobidToTask, waits[waitCalls], waitCalls, jobStatus, toKb).Continue?
    requires Yields(out, jobidToTask, Step(jobidToTask, waits[waitCalls], waitCalls, jobStatus, toKb).batch)
    ensures var s := Step(jobidToTask, waits[waitCalls], waitCalls, jobStatus, toKb);
      PollInv(initial, waits, jobStatus, toKb, s.next, got + s.batch, yielded + out, waitCalls + 1)
  {
    var s := Step(jobidToTask, waits[waitCalls], waitCalls, jobStatus, toKb);
    StepContinues(jobidToTask, waits[waitCalls], waitCalls, jobStatus, toKb);
    YieldsWiden(out, jobidToTask, initial, s.batch);
    assert got.Keys * s.batch.Keys == {};
    YieldsAppend(yielded, out, initial, got, s.batch);
    var rest := Run(s.next, waits, waitCalls + 1, jobStatus, toKb);
    assert Run(jobidToTask, waits, waitCalls, jobStatus, toKb) == Prepend(s.batch, rest);
    PrependTwice(got, s.batch, rest);
  }

  /**
    A poller call on `initial` that yielded `yielded`, left `remaining`, ended
    with `stop` after `waitCalls` wait calls agrees with the reference run: the
    same jobs left, the same stop, the same number of wait calls, and each
    reference record yielded once with its task.
   */
  predicate Polled(initial: map<JobKey, Task>, waits: seq<WaitOutcome>,
                   jobStatus: (nat, JobKey) -> QueryResult, toKb: real -> real,
                   yielded: seq<(Task, NormalizedJobInfo)>, remaining: map<JobKey, Task>, stop: Stop, waitCalls: nat)
  {
    var spec := Run(initial, waits, 0, jobStatus, toKb);
    && remaining == spec.remaining && stop == spec.stop && waitCalls == spec.waitCalls
    && Yields(yielded, initial, spec.yielded)
  }

  /** An iteration that halts ends the reference run there. */
  lemma PollHalts(initial: map<JobKey, Task>, waits: seq<WaitOutcome>,
                  jobStatus: (nat, JobKey) -> QueryResult, toKb: real -> real,
                  jobidToTask: map<JobKey, Task>, got: map<JobKey, NormalizedJobInfo>,
                  yielded: seq<(Task, NormalizedJobInfo)>, round: nat, stop: Stop)
    requires PollInv(initial, waits, jobStatus, toKb, jobidToTask, got, yielded, round)
    requires |jobidToTask| > 0 && round < |waits|
    requires Step(jobidToTask, waits[round], round, jobStatus, toKb) == Halt(stop)
    ensures Polled(initial, waits, jobStatus, toKb, yielded, jobidToTask, stop, round + 1)
  {
    assert got + map[] == got;
  }

  /** The loop ends the reference run when no job is outstanding or the wait answers are used up. */
  lemma PollEnds(initial: map<JobKey, Task>, waits: seq<WaitOutcome>,
                 jobStatus: (nat, JobKey) -> QueryResult, toKb: real -> real,
                 jobidToTask: map<JobKey, Task>, got: map<JobKey, NormalizedJobInfo>,
                 yielded: seq<(Task, NormalizedJobInfo)>, waitCalls: nat, stop: Stop)
    requires PollInv(initial, waits, jobStatus, toKb, jobidToTask, got, yielded, waitCalls)
    requires |jobidToTask| == 0 ==> stop == NoJobsLeft
    requires |jobidToTask| != 0 ==> waitCalls == |waits| && stop == WaitsExhausted
    ensures Polled(initial, waits, jobStatus, toKb, yielded, jobidToTask, stop, waitCalls)
  {
    assert Run(jobidToTask, waits, waitCalls, jobStatus, toKb) == RunResult(map[], jobidToTask, stop, waitCalls);
    assert got + map[] == got;
  }

  /** Wait call `j` reports job `k`: its answer says `k` finished, or its recovery round finds `k` dead. */
  predicate Reports(waits: seq<WaitOutcome>, j: nat, k: JobKey, jobStatus: (nat, JobKey) -> QueryResult)
    requires j < |waits|
  {
    (waits[j].JobFinished? && Some(waits[j].info.jobId) == k) || RecoveredAt(waits, j, k, jobStatus)
  }

  /** No wait call before `upTo` reports a job of `m`. */
  predicate Unreported(m: map<JobKey, Task>, waits: seq<WaitOutcome>, upTo: nat, jobStatus: (nat, JobKey) -> QueryResult) {
    forall j, k :: 0 <= j < upTo && j < |waits| && k in m ==> !Reports(waits, j, k, jobStatus)
  }

  /** A job still outstanding after a pass was not reported by that pass's wait call either. */
  lemma UnreportedStep(m: map<JobKey, Task>, waits: seq<WaitOutcome>, round: nat,
                       jobStatus: (nat, JobKey) -> QueryResult, toKb: real -> real)
    requires round < |waits| && Unreported(m, waits, round, jobStatus)
    requires Step(m, waits[round], round, jobStatus, toKb).Continue?
    ensures Unreported(Step(m, waits[round], round, jobStatus, toKb).next, waits, round + 1, jobStatus)
  {
    var s := Step(m, waits[round], round, jobStatus, toKb);
    StepContinues(m, waits[round], round, jobStatus, toKb);
    forall j, k | 0 <= j < round + 1 && j < |waits| && k in s.next
      ensures !Reports(waits, j, k, jobStatus)
    {
      assert k in m;
      if j == round && waits[j].NakedException? {
        assert k !in RecoverKeys(m, round, jobStatus);
      }
    }
  }

  /**
    `rounds[a]` is the wait call whose pass yielded `out[a]`: the calls never
    go back, each was made among the first `waitCalls`, each justifies its
    record, and no earlier call reports that job. So `rounds[a]` is the first
    wait call that reports `out[a]`'s job, and the records of jobs reported
    earlier come first.
   */
  predicate InWaitOrder(out: seq<(Task, NormalizedJobInfo)>, rounds: seq<nat>, waits: seq<WaitOutcome>, waitCalls: nat,
                        jobStatus: (nat, JobKey) -> QueryResult, toKb: real -> real)
  {
    && |rounds| == |out|
    && (forall a, b :: 0 <= a < b < |rounds| ==> rounds[a] <= rounds[b])
    && (forall a :: 0 <= a < |rounds| ==>
          && rounds[a] < waitCalls && rounds[a] < |waits|
          && JustifiedBy(waits, rounds[a], out[a].0.drmJobId, out[a].1, jobStatus, toKb)
          && (forall j :: 0 <= j < rounds[a] ==> !Reports(waits, j, out[a].0.drmJobId, jobStatus)))
  }

  /** The wait call of each record is determined: two orderings of the same output agree. */
  lemma InWaitOrderUnique(out: seq<(Task, NormalizedJobInfo)>, rounds1: seq<nat>, rounds2: seq<nat>,
                          waits: seq<WaitOutcome>, calls1: nat, calls2: nat,
                          jobStatus: (nat, JobKey) -> QueryResult, toKb: real -> real)
    requires InWaitOrder(out, rounds1, waits, calls1, jobStatus, toKb)
    requires InWaitOrder(out, rounds2, waits, calls2, jobStatus, toKb)
    ensures rounds1 == rounds2
  {
    forall a | 0 <= a < |out|
      ensures rounds1[a] == rounds2[a]
    {
      var k := out[a].0.drmJobId;
      assert Reports(waits, rounds1[a], k, jobStatus);
      assert Reports(waits, rounds2[a], k, jobStatus);
    }
  }

  /**
    A record whose job some wait call `j` reports comes before every record
    yielded by a later wait call than `j`.
   */
  lemma InWaitOrderReportedFirst(out: seq<(Task, NormalizedJobInfo)>, rounds: seq<nat>, waits: seq<WaitOutcome>,
                                 waitCalls: nat, jobStatus: (nat, JobKey) -> QueryResult, toKb: real -> real,
                                 a: nat, b: nat, j: nat)
    requires InWaitOrder(out, rounds, waits, waitCalls, jobStatus, toKb)
    requires a < |out| && b < |out| && j < |waits|
    requires j < rounds[a] && Reports(waits, j, out[b].0.drmJobId, jobStatus)
    ensures b < a
  {
    assert rounds[b] <= j;
  }

  /** What holds after `waitCalls` wait calls holds after one more. */
  lemma InWaitOrderLater(out: seq<(Task, NormalizedJobInfo)>, rounds: seq<nat>, waits: seq<WaitOutcome>, waitCalls: nat,
                         jobStatus: (nat, JobKey) -> QueryResult, toKb: real -> real)
    requires InWaitOrder(out, rounds, waits, waitCalls, jobStatus, toKb)
    ensures InWaitOrder(out, rounds, waits, waitCalls + 1, jobStatus, toKb)
  {
  }

  /** The records one pass yields are justified by its wait call and come from `m`. */
  lemma PassJustified(m: map<JobKey, Task>, waits: seq<WaitOutcome>, round: nat,
                      jobStatus: (nat, JobKey) -> QueryResult, toKb: real -> real,
                      out: seq<(Task, NormalizedJobInfo)>)
    requires round < |waits|
    requires Step(m, waits[round], round, jobStatus, toKb).Continue?
    requires YieldsFrom(out, m, Step(m, waits[round], round, jobStatus, toKb).batch)
    ensures forall a :: 0 <= a < |out| ==>
      out[a].0.drmJobId in m && JustifiedBy(waits, round, out[a].0.drmJobId, out[a].1, jobStatus, toKb)
  {
    StepJustified(m, waits, round, jobStatus, toKb);
  }

  /** Appending the records of wait call `round` about jobs no earlier call reported keeps the order. */
  lemma InWaitOrderAppend(out: seq<(Task, NormalizedJobInfo)>, rounds: seq<nat>, waits: seq<WaitOutcome>, round: nat,
                          jobStatus: (nat, JobKey) -> QueryResult, toKb: real -> real,
                          m: map<JobKey, Task>, more: seq<(Task, NormalizedJobInfo)>)
    requires InWaitOrder(out, rounds, waits, round, jobStatus, toKb)
    requires round < |waits| && Unreported(m, waits, round, jobStatus)
    requires forall a :: 0 <= a < |more| ==>
      more[a].0.drmJobId in m && JustifiedBy(waits, round, more[a].0.drmJobId, more[a].1, jobStatus, toKb)
    ensures InWaitOrder(out + more, rounds + seq(|more|, _ => round), waits, round + 1, jobStatus, toKb)
  {
    var out', rounds' := out + more, rounds + seq(|more|, _ => round);
    forall a | 0 <= a < |rounds'|
      ensures rounds'[a] < round + 1 && rounds'[a] < |waits|
      ensures JustifiedBy(waits, rounds'[a], out'[a].0.drmJobId, out'[a].1, jobStatus, toKb)
      ensures forall j :: 0 <= j < rounds'[a] ==> !Reports(waits, j, out'[a].0.drmJobId, jobStatus)
    {
      if a >= |rounds| {
        assert out'[a] == more[a - |rounds|] && rounds'[a] == round;
      } else {
        assert out'[a] == out[a] && rounds'[a] == rounds[a];
      }
    }
  }

  /**
    One pass of the loop body of `filter_is_done` on the answer `w` of wait
    call number `round`: a finished job that is outstanding is popped and
    yielded with its normalized record; the "code 24" failure runs a recovery
    round and yields the jobs it pops; every other answer ends the call, with
    the stop it causes in `halt`.
   */
  method WaitOnce(jobidToTask: map<JobKey, Task>, w: WaitOutcome, round: nat,
                  jobStatus: (nat, JobKey) -> QueryResult, toKb: real -> real)
    returns (next: map<JobKey, Task>, out: seq<(Task, NormalizedJobInfo)>, halt: Option<Stop>)
    requires KeyedByJobId(jobidToTask)
    ensures var s := Step(jobidToTask, w, round, jobStatus, toKb);
      && (halt.Some? <==> s.Halt?)
      && (s.Halt? ==> halt.value == s.stop && next == jobidToTask && out == [])
      && (s.Continue? ==> next == s.next && Yields(out, jobidToTask, s.batch))
  {
    next, out, halt := jobidToTask, [], None;
    match w {
      case JobFinished(info) =>
        var k := Some(info.jobId);
        if k !in jobidToTask {
          halt := Some(Raised(UnknownJobId(info.jobId)));
        } else {
          var record := ParseJobInfo(info, toKb);
          YieldsOne(jobidToTask, k, record);
          next, out := jobidToTask - {k}, [(jobidToTask[k], record)];
        }
      case WaitTimeout =>
        halt := Some(TimedOut);
      case WaitInvalidJob =>
        halt := Some(Raised(InvalidJobRuntimeError));
      case NakedException(message) =>
        if !IsCode24(message) {
          halt := Some(Raised(NakedRaised(message)));
        } else {
          next, out := Recover(jobidToTask, round, jobStatus);
        }
      case OtherException =>
        halt := Some(Raised(OtherRaised));
    }
  }

  /**
    `filter_is_done`: builds the map from job id to task, then, while jobs are
    outstanding, makes one wait call after another and handles its answer
    (`WaitOnce`) until an answer ends the call. Returns what was yielded, in
    order, with the jobs left, how the call ended and the number of wait calls
    made; it agrees with the reference run.
   */
  method FilterIsDone(tasks: seq<Task>, waits: seq<WaitOutcome>,
                      jobStatus: (nat, JobKey) -> QueryResult, toKb: real -> real)
    returns (yielded: seq<(Task, NormalizedJobInfo)>, remaining: map<JobKey, Task>, stop: Stop, waitCalls: nat,
             ghost rounds: seq<nat>)
    ensures Polled(JobIdToTask(tasks), waits, jobStatus, toKb, yielded, remaining, stop, waitCalls)
    ensures InWaitOrder(yielded, rounds, waits, waitCalls, jobStatus, toKb)
  {
    var jobidToTask := JobIdToTask(tasks);
    ghost var initial := jobidToTask;
    ghost var got: map<JobKey, NormalizedJobInfo> := map[];
    yielded, waitCalls, stop, rounds := [], 0, NoJobsLeft, [];
    PollStarts(initial, waits, jobStatus, toKb);
    while |jobidToTask| > 0
      invariant PollInv(initial, waits, jobStatus, toKb, jobidToTask, got, yielded, waitCalls)
      invariant InWaitOrder(yielded, rounds, waits, waitCalls, jobStatus, toKb)
      invariant Unreported(jobidToTask, waits, waitCalls, jobStatus)
      invariant stop == NoJobsLeft
      decreases |waits| - waitCalls
    {
      if waitCalls == |waits| {
        stop, remaining := WaitsExhausted, jobidToTask;
        PollEnds(initial, waits, jobStatus, toKb, jobidToTask, got, yielded, waitCalls, stop);
        return;
      }
      var round := waitCalls;
      var next, out, halt := WaitOnce(jobidToTask, waits[round], round, jobStatus, toKb);
      waitCalls := round + 1;
      if halt.Some? {
        stop, remaining := halt.value, jobidToTask;
        PollHalts(initial, waits, jobStatus, toKb, jobidToTask, got, yielded, round, stop);
        InWaitOrderLater(yielded, rounds, waits, round, jobStatus, toKb);
        return;
      }
      PollContinues(initial, waits, jobStatus, toKb, jobidToTask, got, yielded, round, out);
      PassJustified(jobidToTask, waits, round, jobStatus, toKb, out);
      InWaitOrderAppend(yielded, rounds, waits, round, jobStatus, toKb, jobidToTask, out);
      UnreportedStep(jobidToTask, waits, round, jobStatus, toKb);
      rounds := rounds + seq(|out|, _ => round);
      got := got + Step(jobidToTask, waits[round], round, jobStatus, toKb).batch;
      jobidToTask := next;
      yielded := yielded + out;
    }
    remaining := jobidToTask;
    PollEnds(initial, waits, jobStatus, toKb, jobidToTask, got, yielded, waitCalls, stop);
  }
}
