/** Lifecycle tables of task rows and workflow instances. */
module States {

  datatype NodeStatus = Waiting | Pending | Running | Completed | Invalidated | Failed

  datatype WorkflowStatus = WfPending | WfRunning | WfPaused | WfCompleted | WfCancelled

  /** A move to the same state is always accepted. */
  predicate NodeMay(from: NodeStatus, to: NodeStatus) {
    from == to ||
    match from
    case Waiting => to == Pending || to == Invalidated
    case Pending => to == Running || to == Invalidated || to == Failed
    case Running => to == Completed || to == Failed || to == Invalidated
    case Completed => to == Invalidated || to == Pending
    case Invalidated => to == Pending || to == Waiting
    case Failed => to == Pending || to == Invalidated
  }

  /** Reopening needs the way back from completed to running. */
  predicate WorkflowMay(from: WorkflowStatus, to: WorkflowStatus) {
    from == to ||
    match from
    case WfPending => to == WfRunning || to == WfCancelled
    case WfRunning => to == WfPaused || to == WfCompleted || to == WfCancelled
    case WfPaused => to == WfRunning || to == WfCancelled
    case WfCompleted => to == WfRunning
    case WfCancelled => false
  }
}
