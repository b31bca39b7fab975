/** The vocabulary that tools, policies and failures share. */
module Contracts {
  datatype Effect = Read | Write | ExternalEffect

  datatype Approval = NoApproval | ApprovalRequired

  datatype Idempotency = NotApplicable | KeyRequired

  datatype ErrorCode =
    | InvalidInput | Unauthenticated | Forbidden | NeedsApproval | Conflict | TimedOut | CallCancelled
    | Overloaded | Unavailable | ResultTooLarge | InternalFailure
}
