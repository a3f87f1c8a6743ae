/**
  The usage normalizer: turns the raw accounting record of a finished job into
  the engine's normalized record, and fabricates the record used when no
  accounting data is available.
 */
module JobInfo {
  import opened Wrappers
  import opened Drmaa

  /** `os.EX_SOFTWARE`: internal software error (sysexits). */
  const EX_SOFTWARE: int := 70
  /** `os.EX_TEMPFAIL`: temporary failure (sysexits). */
  const EX_TEMPFAIL: int := 75

  /** The engine-facing record of one job's outcome. */
  datatype NormalizedJobInfo = NormalizedJobInfo(
    exitStatus: int,
    successful: bool,
    percentCpu: real,
    wallTime: real,
    cpuTime: real,
    userTime: real,
    systemTime: real,
    avgRssMem: real,
    maxRssMemKb: real,
    avgVmsMemKb: Option<real>,
    maxVmsMemKb: real,
    ioReadCount: int,
    ioWriteCount: int,
    ioWait: real,
    ioReadKb: real,
    ioWriteKb: real,
    ctxSwitchVoluntary: int,
    ctxSwitchInvoluntary: int,
    avgNumThreads: Option<int>,
    maxNumThreads: Option<int>,
    avgNumFds: Option<int>,
    maxNumFds: Option<int>,
    memory: real)

  /** The fields the accounting data cannot supply are always reported absent. */
  predicate UnobservableAbsent(r: NormalizedJobInfo) {
    && r.avgVmsMemKb.None?
    && r.avgNumThreads.None?
    && r.maxNumThreads.None?
    && r.avgNumFds.None?
    && r.maxNumFds.None?
  }

  /** The verdict and the exit status agree: success exactly when the exit status is zero. */
  predicate VerdictConsistent(r: NormalizedJobInfo) {
    r.successful <==> r.exitStatus == 0
  }

  /** Every numeric metric of the record is zero. */
  predicate MetricsZero(r: NormalizedJobInfo) {
    && r.percentCpu == 0.0 && r.wallTime == 0.0
    && r.cpuTime == 0.0 && r.userTime == 0.0 && r.systemTime == 0.0
    && r.avgRssMem == 0.0 && r.maxRssMemKb == 0.0 && r.maxVmsMemKb == 0.0
    && r.ioReadCount == 0 && r.ioWriteCount == 0
    && r.ioWait == 0.0 && r.ioReadKb == 0.0 && r.ioWriteKb == 0.0
    && r.ctxSwitchVoluntary == 0 && r.ctxSwitchInvoluntary == 0
    && r.memory == 0.0
  }

  /** The module's own `div`: the quotient, except that a zero denominator gives 1. */
  function Div(n: real, d: real): (r: real)
    ensures d == 0.0 ==> r == 1.0
    ensures d != 0.0 ==> r * d == n
  {
    if d == 0.0 then 1.0 else n / d
  }

  /** Python's `int(x)` on a float: truncation toward zero. */
  function Truncate(x: real): (r: int)
    ensures 0.0 <= x ==> 0 <= r && r as real <= x < r as real + 1.0
    ensures x < 0.0 ==> r <= 0 && r as real - 1.0 < x <= r as real
  {
    if 0.0 <= x then x.Floor else -((-x).Floor)
  }

  /** The raw record shows some sign of the job having ended in error. */
  predicate ShowsFailure(raw: RawJobInfo) {
    raw.exitStatus != 0 || raw.hasSignal || raw.wasAborted || !raw.hasExited
  }

  /**
    `parse_drmaa_jobinfo`: the metrics are copied or converted from the
    resource usage (`toKb` is the unit conversion `convert_size_to_kb`), and on
    any sign of failure the exit status is repaired to be non-zero: the
    top-level exit status, else the resource-usage exit status, else
    EX_SOFTWARE.
   */
  function ParseJobInfo(raw: RawJobInfo, toKb: real -> real): (r: NormalizedJobInfo)
    ensures r.successful <==> raw.exitStatus == 0 && !raw.hasSignal && !raw.wasAborted && raw.hasExited
    ensures VerdictConsistent(r)
    ensures raw.exitStatus != 0 ==> r.exitStatus == raw.exitStatus
    ensures !r.successful && raw.exitStatus == 0 && Truncate(raw.resourceUsage.exitStatus) != 0 ==>
              r.exitStatus == Truncate(raw.resourceUsage.exitStatus)
    ensures !r.successful && raw.exitStatus == 0 && Truncate(raw.resourceUsage.exitStatus) == 0 ==>
              r.exitStatus == EX_SOFTWARE
    ensures raw.resourceUsage.ruWallclock == 0.0 ==> r.percentCpu == 1.0
    ensures raw.resourceUsage.ruWallclock != 0.0 ==> r.percentCpu * r.wallTime == r.cpuTime
    ensures r.wallTime == raw.resourceUsage.ruWallclock && r.cpuTime == raw.resourceUsage.cpu
    ensures r.maxRssMemKb == toKb(raw.resourceUsage.ruMaxrss) && r.maxVmsMemKb == toKb(raw.resourceUsage.maxvmem)
    ensures r.ioReadKb == r.ioWriteKb == raw.resourceUsage.io
    ensures UnobservableAbsent(r)
  {
    var d := raw.resourceUsage;
    var info := NormalizedJobInfo(
      exitStatus := raw.exitStatus,
      successful := false,
      percentCpu := Div(d.cpu, d.ruWallclock),
      wallTime := d.ruWallclock,
      cpuTime := d.cpu,
      userTime := d.ruUtime,
      systemTime := d.ruStime,
      avgRssMem := d.ruIxrss,
      maxRssMemKb := toKb(d.ruMaxrss),
      avgVmsMemKb := None,
      maxVmsMemKb := toKb(d.maxvmem),
      ioReadCount := Truncate(d.ruInblock),
      ioWriteCount := Truncate(d.ruOublock),
      ioWait := d.iow,
      ioReadKb := d.io,
      ioWriteKb := d.io,
      ctxSwitchVoluntary := Truncate(d.ruNvcsw),
      ctxSwitchInvoluntary := Truncate(d.ruNivcsw),
      avgNumThreads := None,
      maxNumThreads := None,
      avgNumFds := None,
      maxNumFds := None,
      memory := d.mem);
    if ShowsFailure(raw) then
      var fromUsage := if info.exitStatus == 0 then Truncate(d.exitStatus) else info.exitStatus;
      var repaired := if fromUsage == 0 then EX_SOFTWARE else fromUsage;
      info.(exitStatus := repaired, successful := false)
    else
      info.(successful := true)
  }

  /**
    `create_empty_drmaa_jobinfo`: the synthetic record for a job whose
    accounting data is unavailable.
   */
  function CreateEmptyJobInfo(exitStatus: int): (r: NormalizedJobInfo)
    ensures r.exitStatus == exitStatus
    ensures r.successful <==> exitStatus == 0
    ensures VerdictConsistent(r)
    ensures MetricsZero(r)
    ensures UnobservableAbsent(r)
  {
    NormalizedJobInfo(
      exitStatus := exitStatus,
      successful := exitStatus == 0,
      percentCpu := 0.0,
      wallTime := 0.0,
      cpuTime := 0.0,
      userTime := 0.0,
      systemTime := 0.0,
      avgRssMem := 0.0,
      maxRssMemKb := 0.0,
      avgVmsMemKb := None,
      maxVmsMemKb := 0.0,
      ioReadCount := 0,
      ioWriteCount := 0,
      ioWait := 0.0,
      ioReadKb := 0.0,
      ioWriteKb := 0.0,
      ctxSwitchVoluntary := 0,
      ctxSwitchInvoluntary := 0,
      avgNumThreads := None,
      maxNumThreads := None,
      avgNumFds := None,
      maxNumFds := None,
      memory := 0.0)
  }

  /** The record the poller fabricates for a job it infers to have died. */
  function TempFailInfo(): (r: NormalizedJobInfo)
    ensures r.exitStatus == EX_TEMPFAIL && !r.successful
    ensures MetricsZero(r) && UnobservableAbsent(r)
  {
    CreateEmptyJobInfo(EX_TEMPFAIL)
  }
}
