# COSMOS2 DRMAA adapter — a verified model

This project models the core of the DRMAA adapter of the COSMOS2 workflow engine
(`cosmos/job/drm/drm_drmaa.py`). The adapter has four parts:

- **The job status poller (`filter_is_done`).** Given the engine's submitted tasks, it keeps waiting
  on the resource manager and yields each finished job's task with a normalized
  accounting record, exactly once. A one-second wait timeout ends a polling
  cycle. The invalid-job answer, an unrecognised naked exception, or any other
  failure raises. The recognised spurious failure, a naked exception whose
  message starts with "code 24", starts a recovery round instead. In that round
  the poller queries every outstanding job and yields a synthetic
  temporary-failure record (exit status 75, `EX_TEMPFAIL`) for each job it
  finds finished, failed or undeterminable.
- **The usage normalizer (`parse_drmaa_jobinfo`, `div`, `create_empty_drmaa_jobinfo`).** It turns the raw
  accounting record into the engine's record. On any sign of failure it
  guarantees a non-zero exit status, falling back first to the
  resource-usage exit status and then to 70 (`EX_SOFTWARE`).
- **The status decoder (`drm_statuses`, `get_status`, `decodestatus`).** It
  gives one human-readable status per job id. It never fails: it returns `"?"`
  when a task has no job id or its job is unknown, and `"??"` when the query
  fails or returns the one state its table has no entry for (user and system
  suspended).
- **The killer (`kill`, `kill_tasks`).** It sends one termination request per task
  that has a job id.

How the model is built:

- **Session oracle.** The resource-manager session is an oracle.
  - `waits` is the finite sequence of answers the successive wait calls receive.
  - `jobStatus` answers the point status queries. In the poller it is indexed
    by the number of the wait call whose recovery round makes the query.
  - `accepts` says whether a termination request is accepted.
- **Reference run.** `Poller.Run` is the reference outcome of one poller call,
  built one loop iteration (`Poller.Step`) at a time.
- **Imperative poller.** `Poller.FilterIsDone` is the poller itself: a loop over
  a local mutable map from job id to task, with `Poller.Recover` as the
  recovery round. It is proved to agree with `Run`. The lemmas about `Run`
  state what the poller promises:
  - every job is accounted for exactly once;
  - each record comes from a wait answer or a recovery round;
  - how and why a call stops.
- **Job keys.** Job ids are `Option<int>`, because a task that was never
  submitted has no id and the source still uses that absent id as a dictionary
  key.

Modules: `Wrappers` (Option), `Drmaa` (the library's vocabulary and the task),
`JobInfo`, `JobStatus`, `Poller`.

## Model

| member | source | states |
|---|---|---|
| JobInfo.Div | cosmos/job/drm/drm_drmaa.py:157-161 | a zero denominator gives 1; otherwise the result times the denominator is the numerator |
| JobInfo.Truncate | cosmos/job/drm/drm_drmaa.py:181-188 | Python's `int(float(x))` truncates toward zero: the result lies within one of `x`, on the side of zero |
| JobInfo.ParseJobInfo | cosmos/job/drm/drm_drmaa.py:164-221 | successful iff exit status 0, no signal, not aborted and exited; successful iff the reported exit status is 0; a failed job keeps a non-zero top-level exit status, else takes the truncated resource-usage exit status, else EX_SOFTWARE; percent CPU is cpu/wall, or 1 when wall time is 0; wall and CPU time, both I/O sizes, and both memory sizes (through the unit conversion) come from the usage block; the five unobservable fields are absent |
| JobInfo.CreateEmptyJobInfo | cosmos/job/drm/drm_drmaa.py:224-256 | the given exit status; successful iff it is 0; every metric zero; the unobservable fields absent |
| JobInfo.TempFailInfo | cosmos/job/drm/drm_drmaa.py:111 | the recovery record has exit status EX_TEMPFAIL (75), is unsuccessful, and has every metric zero |
| JobStatus.DecodeStatus | cosmos/job/drm/drm_drmaa.py:141-154 | every state but user-and-system suspended has a description, that one has none; no description is one of the two markers `"?"` and `"??"` |
| JobStatus.DecodeStatusInjective | cosmos/job/drm/drm_drmaa.py:141-154 | distinct described states have distinct descriptions |
| JobStatus.GetStatus | cosmos/job/drm/drm_drmaa.py:120-126 | `"?"` iff the task has no id or the library reports an invalid job; `"??"` iff the query fails otherwise or returns the user-and-system suspended state (the table lookup fails and the bare handler catches it); a state's description iff the query returns that described state |
| JobStatus.DrmStatuses | cosmos/job/drm/drm_drmaa.py:117-128 | one entry per job id of the tasks (absent ids included), each holding that task's status |
| JobStatus.Kill | cosmos/job/drm/drm_drmaa.py:130-135 | at most one request; none iff the task has no job id; otherwise a request for its id |
| JobStatus.TerminateRequests | cosmos/job/drm/drm_drmaa.py:137-139 | at most one request per task |
| JobStatus.TerminateRequestsIds | cosmos/job/drm/drm_drmaa.py:130-139 | a job id is sent a termination request iff some task carries it |
| JobStatus.TerminateRequestsNext | cosmos/job/drm/drm_drmaa.py:137-139 | handling one more task appends that task's request |
| JobStatus.KillTasks | cosmos/job/drm/drm_drmaa.py:137-139 | the requests sent are those of the tasks handled, in order; all accepted means every task was handled; otherwise the loop stopped right after the task whose request was rejected, every earlier request having been accepted |
| Poller.JobIdToTask | cosmos/job/drm/drm_drmaa.py:45 | every task is stored under its own job id |
| Poller.JobIdToTaskContents | cosmos/job/drm/drm_drmaa.py:45 | one entry per job id of the tasks, each entry one of the tasks, and for repeated ids the last task wins |
| Poller.Step | cosmos/job/drm/drm_drmaa.py:49-112 | an iteration goes on exactly when its answer neither times out, nor is the invalid-job answer, nor a naked exception without "code 24", nor a non-`Exception` failure, nor a finished job that is not outstanding |
| Poller.StepContinues | cosmos/job/drm/drm_drmaa.py:53-57 | an iteration that goes on yields records for exactly the ids it removes and leaves the other jobs as they were |
| Poller.StepHalts | cosmos/job/drm/drm_drmaa.py:56-90 | an iteration that halts was caused by its answer: a timeout, the invalid-job answer, a naked exception without "code 24", a finished job that is not outstanding, or a non-`Exception` failure |
| Poller.Run | cosmos/job/drm/drm_drmaa.py:47-115 | a call makes at most one wait call per available answer, and when it runs out of answers it has used them all |
| Poller.RunAccounts | cosmos/job/drm/drm_drmaa.py:45-115 | every outstanding job id is either yielded or still outstanding, never both, and the jobs left are the ones submitted |
| Poller.RunEndsEmpty | cosmos/job/drm/drm_drmaa.py:47 | a call ends with no jobs left exactly when nothing remains outstanding |
| Poller.RunStopCause | cosmos/job/drm/drm_drmaa.py:59-90 | a call that times out or raises does so at its last wait call, caused by that call's answer |
| Poller.RunNoEarlyStop | cosmos/job/drm/drm_drmaa.py:47-90 | no wait answer before the last one ends the loop: none is a timeout, the invalid-job answer, a naked exception without "code 24" or a non-`Exception` failure, and every finished job one reports is yielded by the call |
| Poller.RunRecords | cosmos/job/drm/drm_drmaa.py:56-57 | each yielded record is justified by one wait call of the run: that call's answer reported the job finished and the record is its normalized accounting record, or its recovery round found the job finished, failed or undeterminable and the record is the temporary-failure record |
| Poller.AllDeadRecovered | cosmos/job/drm/drm_drmaa.py:100-115 | a "code 24" failure with every outstanding job dead yields all of them with the temporary-failure record after one wait call and ends with no jobs left |
| Poller.Recover | cosmos/job/drm/drm_drmaa.py:100-112 | the jobs left are exactly the outstanding jobs not found finished, failed or undeterminable; each popped job is collected once, with its task and the temporary-failure record |
| Poller.WaitOnce | cosmos/job/drm/drm_drmaa.py:49-112 | one loop iteration halts exactly when the reference iteration does, with the same stop; otherwise it leaves the same jobs and yields the reference records once each |
| Poller.FilterIsDone | cosmos/job/drm/drm_drmaa.py:42-115 | the poller agrees with the reference run: the same jobs left, the same stop, the same number of wait calls, and each reference record yielded exactly once with its task; the records come in the order of the wait calls that yield them: each record's call justifies it (the answer reported the job finished, or its recovery round found the job dead) and is the first call that reports its job |
| Poller.UnreportedStep | cosmos/job/drm/drm_drmaa.py:56-111 | a job still outstanding after an iteration was not reported by that iteration's wait call, nor by any before it |
| Poller.InWaitOrderUnique | cosmos/job/drm/drm_drmaa.py:47-115 | the wait call behind each yielded record is determined by the output alone |
| Poller.InWaitOrderReportedFirst | cosmos/job/drm/drm_drmaa.py:47-115 | a record whose job some wait call reports comes before every record yielded by a later wait call |

## Left out

- `get_drmaa_session`: a process-wide lazily created session is external state. The session's answers are the parameters `waits`, `jobStatus` and `accepts`.
- `submit_job`: it only fills in the library's job template and calls into the library. There is nothing to prove about it beyond the library's behaviour.
- The wait call's `timeout=1` argument and the `JOB_IDS_SESSION_ANY` selector are not modelled. A timeout is simply one of the wait answers.
- The messages printed to standard error are not modelled.
- The vendor strings of the accounting record are taken as already parsed numbers. `convert_size_to_kb` is the parameter `toKb`.
- JobInfo.ParseJobInfo: floating point is modelled as exact reals. NaN, infinities and rounding are not captured.
- `avg_rss_mem` is passed through from the usage block unconverted. It is modelled as a number.
- Poller.FilterIsDone: the generator is modelled eagerly. A call runs until the loop ends or the modelled wait answers run out (`WaitsExhausted`). It returns everything yielded, in the order of the wait calls that yield it; within one recovery round the order is that of `Poller.Recover`. A consumer that stops pulling early is not modelled separately.
- Poller.FilterIsDone: a run of "code 24" failures that never finds a dead job loops in the source for as long as the library keeps failing. The model follows it only as far as the given wait answers go.
- Poller.Recover: the source visits the ids in the dictionary's own order. The model picks them in an unspecified order. Its contract and the reference run do not depend on that order.
- Other exceptions raised inside the loop body are not modelled. This covers a failing `parse_drmaa_jobinfo` and a non-integer job id in the wait answer. The normalizer and the id conversion are total in the model.
- `kill_tasks`: the source stops at the first request that raises, because the call is not guarded. The model follows the code. Requests for the remaining tasks are therefore not sent, contrary to a reading where every task is attempted.
- A finished job whose id is not outstanding makes `pop` raise `KeyError`. The generic handler then reads the exception's integer `message` with `startswith` and raises `AttributeError`, which propagates. The model reports this as `Raised(UnknownJobId(id))`; it does not model the traceback.
- The task's other fields (paths, native specification) are not modelled. The modelled functions read only the job id; `uid` is kept as the task's name.
