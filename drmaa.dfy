/**
  The vocabulary of the external job-control library as the adapter sees it:
  job states, the answers of a point status query and of a "wait for any job"
  call, the raw accounting record of a finished job, and the engine's task.
  The library itself is not modelled; its answers are inputs of the model.
 */
module Drmaa {
  import opened Wrappers

  /** Identifier the resource manager gives a submitted job (the adapter reads it with `int(...)`). */
  type JobId = int

  /** A task's job identifier, absent until the task is submitted. */
  type JobKey = Option<JobId>

  /** The engine's task, reduced to its name and its job id (the only field the modelled code reads). */
  datatype Task = Task(uid: string, drmJobId: JobKey)

  /** The library's job state enumeration: the eleven job states of DRMAA 1.0. */
  datatype JobState =
    | Undetermined
    | QueuedActive
    | SystemOnHold
    | UserOnHold
    | UserSystemOnHold
    | Running
    | SystemSuspended
    | UserSuspended
    | UserSystemSuspended
    | Done
    | Failed

  /** What a point status query returns or raises. */
  datatype QueryResult =
    | Status(state: JobState)
    | QueryInvalidJob   // the library raised its "invalid job" error
    | QueryFailed       // the library raised anything else

  /**
    The resource-usage block of a finished job. The vendor strings are taken as
    already parsed numbers; the two memory sizes are in the vendor's unit.
   */
  datatype ResourceUsage = ResourceUsage(
    cpu: real,
    ruWallclock: real,
    ruUtime: real,
    ruStime: real,
    ruIxrss: real,
    ruMaxrss: real,
    maxvmem: real,
    ruInblock: real,
    ruOublock: real,
    iow: real,
    io: real,
    ruNvcsw: real,
    ruNivcsw: real,
    mem: real,
    exitStatus: real)

  /** The record returned by a successful wait call. */
  datatype RawJobInfo = RawJobInfo(
    jobId: JobId,
    exitStatus: int,
    hasSignal: bool,
    wasAborted: bool,
    hasExited: bool,
    resourceUsage: ResourceUsage)

  /** What one call of the library's "wait for any job" primitive returns or raises. */
  datatype WaitOutcome =
    | JobFinished(info: RawJobInfo)   // a job finished; its accounting record
    | WaitTimeout                     // the library's exit-timeout error
    | WaitInvalidJob                  // the library's invalid-job error
    | NakedException(message: string) // any other `Exception`, with its message
    | OtherException                  // a failure that is not an `Exception`
}
