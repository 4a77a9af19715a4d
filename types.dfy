/** The records the dashboard receives from the control plane's HTTP API. */
module Types {

  datatype Option<+T> = None | Some(value: T)

  /** The seven states a job can be reported in. */
  datatype JobState = QUEUED | RUNNING | SUCCEEDED | FAILED | CANCELED | LOST | STARTING

  /** One job as listed by `GET /jobs`. `createdAt` is the creation time already
      parsed to an integer (milliseconds since the epoch); the other timeline
      stamps stay text, because the table only checks their text for the
      zero-time sentinel. */
  datatype Job = Job(
    id: string,
    command: string,
    state: JobState,
    gpuCount: int,
    createdAt: int,
    queuedAt: Option<string>,
    startedAt: Option<string>,
    finishedAt: Option<string>,
    ownerId: Option<string>,
    priority: int,
    cwd: string,
    maxRuntimeMinutes: int,
    retryCount: int,
    exitCode: Option<int>)

  datatype NodeStatus = READY | UP | BUSY | OFFLINE | DOWN

  /** One worker node as listed by `GET /nodes`; the three optional readings may be absent. */
  datatype Node = Node(
    id: string,
    status: NodeStatus,
    addr: string,
    agentVersion: string,
    gpuCount: int,
    gpuFree: int,
    gpuUtilization: Option<int>,
    memoryTotalMb: Option<int>,
    memoryUsedMb: Option<int>,
    lastHeartbeat: string)

  /** `x || 0` on an optional number: an absent reading counts as 0. */
  function OrZero(x: Option<int>): int
  {
    match x
    case None => 0
    case Some(v) => v
  }
}
