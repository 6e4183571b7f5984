/** The failure-carrying results the model's operations return. */
module Wrappers {

  datatype Option<+T> = None | Some(value: T)

  /** The sysrepo return codes the callbacks use. */
  datatype Code = Ok | InvalArg | OperationFailed | Unsupported
}
