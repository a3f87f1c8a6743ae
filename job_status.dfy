/**
  The status decoder and the killer: a coarse human-readable state per task,
  and termination requests for submitted tasks.
 */
module JobStatus {
  import opened Wrappers
  import opened Drmaa

  /** Returned when a task has no job id or the resource manager does not know its job. */
  const UnknownMarker: string := "?"
  /** Returned when the status query fails for any other reason. */
  const QueryFailedMarker: string := "??"

  /**
    `decodestatus`: the description of each job state it names. The
    dictionary has no entry for the user-and-system suspended state.
   */
  function DecodeStatus(s: JobState): (r: Option<string>)
    ensures r.None? <==> s == UserSystemSuspended
    ensures r.Some? ==> r.value != UnknownMarker && r.value != QueryFailedMarker
  {
    match s
    case Undetermined => Some("process status cannot be determined")
    case QueuedActive => Some("job is queued and active")
    case SystemOnHold => Some("job is queued and in system hold")
    case UserOnHold => Some("job is queued and in user hold")
    case UserSystemOnHold => Some("job is queued and in user and system hold")
    case Running => Some("job is running")
    case SystemSuspended => Some("job is system suspended")
    case UserSuspended => Some("job is user suspended")
    case UserSystemSuspended => None
    case Done => Some("job finished normally")
    case Failed => Some("job finished, but failed")
  }

  /** Distinct states have distinct descriptions, so a description names its state. */
  lemma DecodeStatusInjective(s1: JobState, s2: JobState)
    ensures DecodeStatus(s1).Some? && DecodeStatus(s1) == DecodeStatus(s2) ==> s1 == s2
  {
    if DecodeStatus(s1).Some? && DecodeStatus(s1) == DecodeStatus(s2) {
      var d1, d2 := DecodeStatus(s1).value, DecodeStatus(s2).value;
      assert |d1| == |d2| && d1[..8] == d2[..8];
      if |d1| == 24 {
        assert d1[7] == d2[7];
      } else if |d1| == 32 {
        assert d1[21] == d2[21];
      }
    }
  }

  /**
    `get_status`: never fails. The description of the job's state, or the
    unknown marker when the task has no job id or the query reports an
    invalid job, or the query-failed marker when the query fails otherwise or
    returns a state the description table lacks (the lookup's `KeyError` is
    caught by the bare handler). `jobStatus` is the resource manager's answer
    to a point status query.
   */
  function GetStatus(task: Task, jobStatus: JobKey -> QueryResult): (r: string)
    ensures r == UnknownMarker <==> task.drmJobId.None? || jobStatus(task.drmJobId) == QueryInvalidJob
    ensures r == QueryFailedMarker <==>
      task.drmJobId.Some?
      && (jobStatus(task.drmJobId) == QueryFailed || jobStatus(task.drmJobId) == Status(UserSystemSuspended))
    ensures forall s :: DecodeStatus(s).Some? ==>
      (r == DecodeStatus(s).value <==> task.drmJobId.Some? && jobStatus(task.drmJobId) == Status(s))
  {
    if task.drmJobId.None? then UnknownMarker
    else
      match jobStatus(task.drmJobId)
      case Status(s) =>
        if DecodeStatus(s).None? then QueryFailedMarker
        else
          assert forall s' :: DecodeStatus(s').Some? && DecodeStatus(s').value == DecodeStatus(s).value ==> s' == s by {
            forall s' { DecodeStatusInjective(s', s); }
          }
          DecodeStatus(s).value
      case QueryInvalidJob => UnknownMarker
      case QueryFailed => QueryFailedMarker
  }

  /** The set of job ids the tasks carry (absent ones included). */
  function TaskKeys(tasks: seq<Task>): set<JobKey> {
    set t | t in tasks :: t.drmJobId
  }

  /**
    `drm_statuses`: a map with exactly one entry per job id of the tasks,
    holding that task's status.
   */
  function DrmStatuses(tasks: seq<Task>, jobStatus: JobKey -> QueryResult): (r: map<JobKey, string>)
    ensures r.Keys == TaskKeys(tasks)
    ensures forall t :: t in tasks ==> r[t.drmJobId] == GetStatus(t, jobStatus)
    decreases |tasks|
  {
    if tasks == [] then map[]
    else
      var front, last := tasks[..|tasks| - 1], tasks[|tasks| - 1];
      assert tasks == front + [last];
      DrmStatuses(front, jobStatus)[last.drmJobId := GetStatus(last, jobStatus)]
  }

  /** `kill`: the termination request sent for a task, none when it has no job id. */
  function Kill(task: Task): (r: seq<JobId>)
    ensures |r| <= 1
    ensures r == [] <==> task.drmJobId.None?
    ensures r != [] ==> task.drmJobId == Some(r[0])
  {
    if task.drmJobId.Some? then [task.drmJobId.value] else []
  }

  /** The termination requests of `kill` applied to each task in order. */
  function TerminateRequests(tasks: seq<Task>): (r: seq<JobId>)
    ensures |r| <= |tasks|
    decreases |tasks|
  {
    if tasks == [] then []
    else
      TerminateRequests(tasks[..|tasks| - 1]) + Kill(tasks[|tasks| - 1])
  }

  /** A job id is sent a termination request exactly when some task carries it. */
  lemma {:induction false} TerminateRequestsIds(tasks: seq<Task>)
    ensures forall id :: id in TerminateRequests(tasks) <==> Some(id) in TaskKeys(tasks)
    decreases |tasks|
  {
    if tasks != [] {
      var front, last := tasks[..|tasks| - 1], tasks[|tasks| - 1];
      assert tasks == front + [last];
      TerminateRequestsIds(front);
    }
  }

  /** Handling one more task sends that task's request after the earlier ones. */
  lemma TerminateRequestsNext(tasks: seq<Task>, n: nat)
    requires n < |tasks|
    ensures TerminateRequests(tasks[..n + 1]) == TerminateRequests(tasks[..n]) + Kill(tasks[n])
  {
    assert tasks[..n + 1][..n] == tasks[..n];
  }

  /** Every request of `sent` was accepted. */
  predicate AllAccepted(sent: seq<JobId>, accepts: JobId -> bool) {
    forall j :: 0 <= j < |sent| ==> accepts(sent[j])
  }

  /**
    `kill_tasks`: calls `kill` once per task, in order. `accepts` is whether the
    resource manager accepts a termination request; a rejected one raises, which
    ends the loop. Returns the requests sent, the number of tasks handled, and
    whether the loop ended by raising.
   */
  method KillTasks(tasks: seq<Task>, accepts: JobId -> bool) returns (sent: seq<JobId>, handled: nat, raised: bool)
    ensures handled <= |tasks|
    ensures sent == TerminateRequests(tasks[..handled])
    ensures !raised ==> handled == |tasks| && sent == TerminateRequests(tasks) && AllAccepted(sent, accepts)
    ensures raised ==> 0 < handled && tasks[handled - 1].drmJobId.Some? &&
                       sent != [] && AllAccepted(sent[..|sent| - 1], accepts) &&
                       sent[|sent| - 1] == tasks[handled - 1].drmJobId.value &&
                       !accepts(sent[|sent| - 1])
  {
    sent, handled, raised := [], 0, false;
    while handled < |tasks|
      invariant handled <= |tasks|
      invariant sent == TerminateRequests(tasks[..handled])
      invariant AllAccepted(sent, accepts)
    {
      var request := Kill(tasks[handled]);
      TerminateRequestsNext(tasks, handled);
      var before := sent;
      sent := sent + request;
      handled := handled + 1;
      if request != [] && !accepts(request[0]) {
        assert sent[..|sent| - 1] == before;
        raised := true;
        break;
      }
    }
    assert tasks[..|tasks|] == tasks;
  }
}
