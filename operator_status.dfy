/** The status an operator callback hands back to the host's operator machinery. */
module OperatorStatus {

  /** `{'FINISHED'}`, `{'CANCELLED'}`, `{'RUNNING_MODAL'}` and `{'PASS_THROUGH'}`. */
  datatype Status = Finished | Cancelled | RunningModal | PassThrough
}
