/** The row shape of the `loans` table and the small value types shared by the
    rest of the model. Times are whole seconds on one clock. */
module Loans {

  /** A Discord user id, kept as the decimal string the bot stores. */
  type UserId = string

  datatype Status = Pending | Completed | Cleared

  /** `created_at` as the interest calculation sees it: a time in seconds, or a
      value the timestamp parser rejects. */
  datatype Stamp = At(seconds: int) | Unparseable

  /** One row of the `loans` table (the store-assigned id plays no part). */
  datatype Loan = Loan(userId: UserId, amount: int, status: Status, createdAt: Stamp)

  datatype Option<T> = None | Some(value: T)

  /** What a command or button handler answers (its message text is not modelled). */
  datatype Reply =
    | Granted              // a loan row was inserted
    | Denied               // the actor is not an administrator
    | HasDebt              // the user already has a pending loan
    | AlreadyClaimed       // the broadcast offer was taken before
    | Rejected             // an administrator rejected the borrow request
    | RepaymentApproved    // the bulk pending -> completed update ran
    | DebtCleared(total: int)  // pending -> cleared ran and cleared this much principal
    | NothingToClear       // pending -> cleared matched no row
    | LookupFailed         // the user id could not be resolved to a Discord user
}
