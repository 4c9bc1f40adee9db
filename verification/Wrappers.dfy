/** Optional values and structured errors (include/unified_buffer/core/result.hpp). */
module Wrappers {

  datatype Option<+T> = None | Some(value: T)

  datatype ErrorCode =
    | InvalidArgument | UnsupportedDomain | UnsupportedCapability | AlignmentError | InvalidDevice | Overflow
    | OutOfCapacity | QuotaExceeded | StateInvalid | BackendFailure | StaleHandle | StaleGeneration
    | LeaseConflict | BoundsError | PermissionFailure | LifecycleViolation | ImportFailure | IntegrityFailure
    | ResourceBusy

  datatype Result<+T> = Ok(value: T) | Err(error: ErrorCode)
}
