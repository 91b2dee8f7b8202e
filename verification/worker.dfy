/** `VMWorker` of `gcp_vm_manager/gui.py`: each of its three methods makes
    one call on the VM manager and emits exactly one signal describing the
    outcome. The remote call's outcome is a parameter. */
module Worker {
  import opened Wrappers

  /** How a call on the VM manager ended: it returned a value, or it raised
      an exception with the given text. */
  datatype CallResult<T> = Returned(value: T) | Raised(error: string)

  /** The three signals: `status_updated(str)`,
      `operation_completed(bool, str)` and `error_occurred(str)`. */
  datatype WorkerEvent =
    | StatusUpdated(status: string)
    | OperationCompleted(success: bool, message: string)
    | ErrorOccurred(message: string)

  const StatusFailedMessage := "Failed to get VM status"
  const StatusErrorPrefix := "Error getting status: "
  const StartErrorPrefix := "Error starting VM: "
  const StopErrorPrefix := "Error stopping VM: "

  /** `VMWorker.get_status`: a non-empty status is reported as such; `None`
      or the empty string, and any exception, become an error. */
  function GetStatus(r: CallResult<Option<string>>): (e: WorkerEvent)
    ensures e.StatusUpdated? <==> r.Returned? && r.value.Some? && r.value.value != ""
    ensures e.StatusUpdated? ==> e.status == r.value.value
    ensures !e.OperationCompleted?
    ensures r.Raised? ==> e == ErrorOccurred(StatusErrorPrefix + r.error)
    ensures r.Returned? && !(r.value.Some? && r.value.value != "") ==> e == ErrorOccurred(StatusFailedMessage)
  {
    match r
    case Returned(status) =>
      if status.Some? && status.value != "" then StatusUpdated(status.value)
      else ErrorOccurred(StatusFailedMessage)
    case Raised(error) => ErrorOccurred(StatusErrorPrefix + error)
  }

  /** `VMWorker.start_vm`: the manager's success flag is reported as an
      operation result; only an exception becomes an error. */
  function StartVm(r: CallResult<bool>): (e: WorkerEvent)
    ensures e.OperationCompleted? <==> r.Returned?
    ensures e.OperationCompleted? ==> e.success == r.value
    ensures !e.StatusUpdated?
    ensures r.Raised? ==> e == ErrorOccurred(StartErrorPrefix + r.error)
  {
    match r
    case Returned(success) =>
      if success then OperationCompleted(true, "VM start operation initiated successfully")
      else OperationCompleted(false, "Failed to start VM")
    case Raised(error) => ErrorOccurred(StartErrorPrefix + error)
  }

  /** `VMWorker.stop_vm`: as `start_vm`, for the stop request. */
  function StopVm(r: CallResult<bool>): (e: WorkerEvent)
    ensures e.OperationCompleted? <==> r.Returned?
    ensures e.OperationCompleted? ==> e.success == r.value
    ensures !e.StatusUpdated?
    ensures r.Raised? ==> e == ErrorOccurred(StopErrorPrefix + r.error)
  {
    match r
    case Returned(success) =>
      if success then OperationCompleted(true, "VM stop operation initiated successfully")
      else OperationCompleted(false, "Failed to stop VM")
    case Raised(error) => ErrorOccurred(StopErrorPrefix + error)
  }
}
