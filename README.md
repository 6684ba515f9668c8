# Loan ledger of the lending bot, modelled in Dafny

The bot keeps a `loans` table with one row per loan event. Each row has a
borrower id, an integer amount, a status (`pending`, `completed` or
`cleared`) and a creation time.

- Administrators post borrow buttons and broadcast offers.
- Administrators approve borrow and repayment requests, clear debts and
  transfer credit.
- Interest is linear at 10% of the principal per elapsed hour, rounded half to
  even.
- A monitor flags pending loans whose interest exceeds the principal.

The model keeps what these handlers do to the table and leaves out their
Discord and Supabase plumbing:

| file | module | contents |
|---|---|---|
| `loans.dfy` | `Loans` | row shape, statuses, timestamps, handler replies |
| `interest.dfy` | `Interest` | half-to-even rounding with its characterisation, `calculate_interest`, the owed total, and their properties |
| `admins.dfy` | `Admins` | the `ADMIN_USER_IDS` roster (comma split) and `is_admin` |
| `ledger_spec.dfy` | `LedgerSpec` | the store queries and bulk updates as functions on `seq<Loan>`; the invariant "at most one pending loan per user"; the forward-only status relation `Evolves`; statistics; the broadcast claim as a state transition; the borrow approval as written and as corrected |
| `desk.dfy` | `Desk` | the handlers as methods of a `Ledger` class holding the rows; the offer button (`Offer.disabled`) and the approval message (`ApprovalView.disabled`, an array of button flags) as objects |
| `scenarios.dfy` | `Scenarios` | client methods that walk through an offer race, a repayment, a debt clear and two borrow requests using only the contracts and lemmas |

Modelling choices:

- Times are integer seconds on one clock. `created_at` is `At(seconds)`, or
  `Unparseable` when the timestamp cannot be parsed (interest is then 0).
- Interest is exactly `round(amount * |now - created_at| / 36000)`,
  rounded half to even. This equals `amount * 0.1 * hours` in exact
  arithmetic.
- The privileged handlers take the actor's id and the roster. A non-admin
  gets `Denied` and the table is left unchanged.

Where the documented behaviour and the code differ, the model follows the
code:

- Approving a repayment does not fail with the documented NoPendingLoan error
  when no pending loan is left. The bulk update runs and matches nothing. The only "no debt" refusal is at
  request time (`RequestRepayment` returns `None`).
- The borrow flow does not re-check for a pending loan when the
  administrator approves (bot.py:228-234 always inserts). That insert is
  modelled as written only by `LedgerSpec.ApproveBorrowAsWritten`. The
  handler `Desk.Ledger.ApproveBorrow` implements the corrected approval
  (`LedgerSpec.CheckedApproval`): it answers `HasDebt` and inserts nothing when
  the borrower already has a pending loan. See Findings.
- Amounts are any integer; the bot does not check that they are positive.
  The lemmas that need a non-negative amount ask for one.

## Model

| member | source | states |
|---|---|---|
| `Interest.RoundHalfEven` | bot.py:110 | The result is within half a unit of n/d. On an exact half it is even: Python's `round`. |
| `Interest.RoundHalfEvenUnique` | bot.py:110 | Any integer with those two properties is the result, so the rounding is fully determined. |
| `Interest.RoundHalfEvenMonotone` | bot.py:110 | Rounding does not decrease when the numerator grows. |
| `Interest.CalculateInterest` | bot.py:95-113 | 0 for `completed` and `cleared` loans and for an unparseable `created_at`. Non-negative when the amount is. Otherwise exactly `RoundHalfEven` of amount·\|elapsed seconds\|/36000, so within half a credit of it and even on a tie. |
| `Interest.TotalOwed` | bot.py:123 | Equals the amount for a closed loan. Never below the amount when the amount is non-negative. Also used at bot.py:445 and bot.py:467. |
| `Interest.InterestMonotone` | bot.py:105-110 | With amount ≥ 0, interest is non-decreasing in the absolute elapsed time. |
| `Interest.InterestSymmetric` | bot.py:105 | A clock `d` seconds before `created_at` gives the same interest as one `d` seconds after it: the `abs` guard. |
| `Interest.InterestWholeHours` | bot.py:107-110 | Over exactly h whole hours, a pending loan accrues round(amount·h/10), i.e. 10% per hour. |
| `Interest.HighInterestNeedsTenHours` | bot.py:579-581 | A positive loan crosses "interest > amount" only after more than ten hours. |
| `Interest.TwentyHoursIsHighInterest` | bot.py:579-581 | After twenty hours, every pending positive loan has interest > amount. |
| `Admins.Split` | bot.py:20 | `str.split(",")`: at least one piece, and no piece contains a comma. |
| `Admins.JoinSplit` | bot.py:20 | Joining the pieces with commas gives back the variable, so no character is lost. |
| `Admins.SplitPiece` | bot.py:20 | A comma-free piece followed by a comma splits off as one entry, and a comma-free string is one entry. |
| `Admins.Roster` | bot.py:20 | The roster is the comma split of `ADMIN_USER_IDS`, where unset reads as "". |
| `Admins.IsAdminIffField` | bot.py:79-80 | Against the raw `ADMIN_USER_IDS` string: an id is an administrator iff it has no comma and stands in the string as one whole field. It must sit between the start or a comma and the end or a comma, matched character for character with nothing trimmed. |
| `Admins.SpacesAreNotTrimmed` | bot.py:20 | Entries are compared untrimmed: with "42, 43", "42" and " 43" are administrators and "43" is not. |
| `Admins.EmptyRosterAdmitsNobody` | bot.py:79-80 | With the variable unset or empty, `is_admin` is false for every non-empty user id. |
| `LedgerSpec.PendingOf` | bot.py:212 | The `(user_id = u, status = pending)` query returns exactly the matching rows and nothing else. |
| `LedgerSpec.HasPending` | bot.py:212-213 | The "already has a pending loan" guard, used also at bot.py:326-327, bot.py:394-395 and bot.py:460-461, holds iff some row of that user is pending. |
| `LedgerSpec.PendingOfAppend` | bot.py:212 | The per-user query distributes over concatenation: every matching row, as often as it occurs, in table order. |
| `LedgerSpec.PendingOfSingle` | bot.py:212 | On one row the per-user query gives that row if it is the user's and pending, otherwise nothing. With `PendingOfAppend` this fixes the result completely. |
| `LedgerSpec.FilterPending` | bot.py:576 | The `status = pending` query returns exactly the pending rows. |
| `LedgerSpec.FilterPendingAppend` | bot.py:576 | The status query distributes over concatenation. |
| `LedgerSpec.FilterPendingSingle` | bot.py:576 | On one row the status query gives that row if it is pending, otherwise nothing. With `FilterPendingAppend` this fixes the count and the order. |
| `LedgerSpec.AppendEvolves` | bot.py:234 | An insertion keeps every old row as it was: it is a forward step. |
| `LedgerSpec.MarkPending` | bot.py:374 | The bulk update keeps the table length. It changes each `(u, pending)` row's status, and no other row. |
| `LedgerSpec.MarkPendingEvolves` | bot.py:374 | The bulk update moves rows only out of `pending` and leaves amount, user and `created_at` alone. |
| `LedgerSpec.EvolvesTransitive` | bot.py:359-364 | Forward-only status change is preserved by sequences of operations. |
| `LedgerSpec.ClosedRowsAreFinal` | bot.py:359-364 | No operation writes `pending` into an existing row. A completed or cleared row never changes again. |
| `LedgerSpec.PendingOfAtMostOne` | bot.py:443 | Under the invariant, the per-user pending query has at most one row, so `loans.data[0]` is the whole debt. |
| `LedgerSpec.InsertKeepsInvariant` | bot.py:326-337 | Inserting after the guard, or inserting a non-pending row, keeps at most one pending loan per user. |
| `LedgerSpec.MarkPendingKeepsInvariant` | bot.py:479 | The bulk updates keep the invariant. |
| `LedgerSpec.MarkPendingSettles` | bot.py:438 | After pending→completed or pending→cleared for u, no `(u, pending)` row remains. |
| `LedgerSpec.MarkPendingIdle` | bot.py:374-380 | When no row matches, the update changes nothing (the "nothing found" case). |
| `LedgerSpec.MarkPendingIdempotent` | bot.py:479 | Running the same update twice is the same as running it once. |
| `LedgerSpec.MarkPendingOtherUsers` | bot.py:374 | Other users' pending loans are untouched. |
| `LedgerSpec.SumAmountsAppend` | bot.py:532 | `total_amount` over two tables is the sum of their totals. |
| `LedgerSpec.InsertAccounting` | bot.py:531-534 | An inserted row adds one loan and its amount to the totals, and, when pending, to the pending count and amount. |
| `LedgerSpec.MarkPendingKeepsTotal` | bot.py:532 | `total_amount` is unchanged by a status update. |
| `LedgerSpec.MarkPendingAccounting` | bot.py:533-534 | After clearing or completing u's loans, `pending_loans` drops by the number of rows matched and `pending_amount` by the principal matched (the amount `clear_debt` reports). |
| `LedgerSpec.PendingAmountBounded` | bot.py:532-534 | With non-negative amounts, 0 ≤ `pending_amount` ≤ `total_amount`. |
| `LedgerSpec.SumInterestOfPending` | bot.py:537 | Summing interest over pending rows equals summing it over all rows, since closed loans accrue 0. |
| `LedgerSpec.HighInterest` | bot.py:540-549 | There are no more entries than pending rows, and every entry's interest exceeds its amount. |
| `LedgerSpec.HighInterestSingle` | bot.py:541-549 | On one row the selection gives its entry if it is a high-interest pending loan, otherwise nothing. |
| `LedgerSpec.HighInterestStep` | bot.py:541-549 | One iteration of the high-interest loop: the first i + 1 rows select what the first i do, then row i's entry when it is selected. |
| `LedgerSpec.HighInterestAppend` | bot.py:540-549 | The high-interest selection distributes over concatenation, so it keeps table order. |
| `LedgerSpec.HighInterestMembers` | bot.py:540-549 | An entry is selected iff it comes from a pending row whose interest exceeds its amount. |
| `LedgerSpec.HighInterestOfPending` | bot.py:576-581 | The monitor's selection over the pending query equals `view_stats`'s selection over all rows. |
| `LedgerSpec.Claim` | bot.py:319-340 | A press is granted iff the offer is not yet claimed and the presser has no pending loan. It is "already claimed" iff the flag is set. A refusal changes nothing. A grant appends the presser's pending row of the offer's amount and sets the flag. It is a forward step that keeps the invariant. |
| `LedgerSpec.ClaimRace` | bot.py:320-340 | For any sequence of presses on one offer: once claimed, every press gets "already claimed" and nothing changes. From unclaimed, exactly one press is granted iff the offer ends claimed. That press appends the only new row. The rows before it are kept, and so is the per-user invariant. |
| `LedgerSpec.SomeoneWithoutDebtWins` | bot.py:326-340 | An unclaimed offer ends claimed as soon as one of the pressers owes nothing: debt is the only reason to refuse it. |
| `LedgerSpec.ClaimRaceOrder` | bot.py:320-340 | From an unclaimed offer, either every presser had a pending loan, was told so, and nothing changed; or one press wins. Every earlier presser had a pending loan; the winner had none and gets exactly their pending row of the offer's amount; every later press gets "already claimed". |
| `LedgerSpec.ApproveBorrowAsWritten` | bot.py:228-234 | As written, approval appends a pending row for the requester whatever the table holds. |
| `LedgerSpec.DoubleApprovalAsWritten` | bot.py:209-234 | Counterexample: two requests by one user both pass the request-time check, and approving both leaves two pending loans for that user. |
| `LedgerSpec.CheckedApproval` | bot.py:223-234 | The corrected approval grants iff the borrower has no pending loan. A refusal changes nothing; a grant appends exactly the pending row. It keeps the invariant and is a forward step. |
| `LedgerSpec.ApproveAllKeepsInvariant` | bot.py:212-234 | With the check at insertion time, any sequence of approvals keeps the invariant and only moves forward. |
| `Desk.PostBorrowButton` | bot.py:196-199 | Only an administrator gets the borrow button, with the amount requested. |
| `Desk.Announce` | bot.py:309-312 | Only an administrator gets a fresh, unclaimed offer of the amount. |
| `Desk.ApprovalView.DisableAll` | bot.py:237-238 | Every button of the approval message ends disabled. |
| `Desk.Ledger.RequestBorrow` | bot.py:209-215 | An approval message is opened iff the presser has no pending loan. |
| `Desk.Ledger.ApproveBorrow` | bot.py:223-238 | Non-admin: `Denied`, nothing changes. Admin: the table and reply are `CheckedApproval`'s and the buttons end disabled. The invariant is kept. |
| `Desk.Ledger.RejectBorrow` | bot.py:261-269 | The table never changes. An admin's reject disables the buttons; a non-admin gets `Denied` and the buttons stay as they were. |
| `Desk.Ledger.ClaimOffer` | bot.py:319-340 | The new table, `disabled` flag and reply are exactly `Claim` of the old ones. The invariant is kept. |
| `Desk.Ledger.TransferCredit` | bot.py:388-406 | Non-admin: denied. If the user has a pending loan: refused, nothing changes. Otherwise exactly one `completed` row is appended. |
| `Desk.Ledger.ClearDebt` | bot.py:358-384 | Non-admin or an unresolvable id: nothing changes. Otherwise the `(u, pending)` rows become `cleared`. The reply is the sum of their amounts, or "nothing found" when none matched. |
| `Desk.Ledger.RequestRepayment` | bot.py:457-467 | "No debt" iff the user has no pending loan. Otherwise it quotes the first row of the user's pending query (as `loans.data[0]`), its interest, and `TotalOwed`. Under the invariant that loan is the user's only pending one. The RepaymentView button (bot.py:420-445) has the same code, but `RepaymentView` is never instantiated in bot.py, so it is dead code. |
| `Desk.Ledger.ApproveRepayment` | bot.py:474-479 | Non-admin: nothing changes. Admin: the table becomes the pending→completed update for u and no pending loan of u remains. The RepaymentView approval (bot.py:433-438) is identical, and unreachable because `RepaymentView` is never instantiated. |
| `Desk.Ledger.ViewStats` | bot.py:520-549 | Non-admin: denied. Empty table: "no data". Otherwise the counts and sums over all rows and over pending rows, and the high-interest list, which equals `HighInterest` (the loop's result). |
| `Desk.Ledger.MonitorCycle` | bot.py:575-581 | One monitor cycle flags exactly `HighInterest` of the table: the pending loans with interest > amount, in table order. |

## Findings

| source | as written | input that shows it | evidently intended | confidence | as-written member | corrected member |
|---|---|---|---|---|---|---|
| bot.py:209-234 | The borrow button is never disabled. The pending check runs only when a request is opened; the approve handler inserts a pending loan without checking again. | A user with no debt presses the `create_loan` button twice, and an administrator approves both messages: two pending loans for one user. | No user ever holds two pending loans; the help text at bot.py:514 says so. | high, not executed | `LedgerSpec.DoubleApprovalAsWritten` | `LedgerSpec.CheckedApproval` |

## Left out

- Discord: messages, message edits, replies, DMs to borrowers and
  administrators, and all message text (e.g. bot.py:239-258, bot.py:341-350)
  are notification I/O. `MonitorCycle` returns the flagged loans; it does not
  model sending each warning to the borrower and to every administrator
  (bot.py:583-601).
- Supabase: the client, its network calls and the exceptions they raise are
  not modelled. The table is an in-memory sequence, and select, update and
  insert are filters and updates on it. Store-assigned ids are not modelled.
- `together_chat` and `ai_chat` (bot.py:26-62, bot.py:144-192) are an HTTP
  client for a hosted text model with no ledger logic.
- The monitor's endless loop, its `asyncio.sleep(3600)`, the coroutine started in
  `on_ready`, and the swallowed exceptions (bot.py:572-608, bot.py:83-92,
  bot.py:611-620) are timing and concurrency. Only one cycle is modelled.
- Concurrent handlers: every handler runs to completion before the next. Races
  between approve and reject, or between simultaneous presses of an offer, are
  not modelled.
- Disabled approval buttons: Discord itself refuses presses on them, and the
  approve and reject handlers of the borrow flow (bot.py:222-279) never read
  the flags. So `ApproveBorrow` and `RejectBorrow` do not consult
  `ApprovalView.disabled`. The offer callback does read its own flag
  (bot.py:320), and `Claim` models that check. Discord view timeouts are not modelled.
- Floating point: interest is exact rational arithmetic rounded half to even.
  It can differ from the float computation at exact halves and for very large
  products.
- Timestamps: the parsing at bot.py:100-103 (cutting at '.', appending
  `+00:00`), the stored time being the server's local clock, and microseconds
  are abstracted. A row has `At(seconds)` or `Unparseable`, and the current
  time is a parameter.
- `clear_debt`'s `int(user_id)` and `fetch_user` are a foreign lookup. The
  model takes their outcome as the `userFound` parameter
  (bot.py:371, bot.py:381-384).
- `check_debt`, `view_history` and `view_transactions` (bot.py:116-141,
  bot.py:292-306) are read-only listings formatted into messages.
  `check_debt` lists the `status = pending` query with each loan's interest
  and amount + interest. `view_history` lists every row of the caller
  (bot.py:133), and `view_transactions` every row of the table (bot.py:298),
  each with the interest of pending rows; neither computes a total.
- The help text (bot.py:493-516), and its "compounding" wording, is display
  text only.
- One open offer at a time: the comment at bot.py:314 announces a check that
  no unclaimed offer is already open. No such check exists in the code, so
  `Desk.Announce` follows the code. Any number of offers may be open at once,
  and by `ClaimRace` each one is taken at most once on its own.
- `RepaymentView` (bot.py:415-453) is never instantiated, so its buttons are
  unreachable. It is not modelled apart from the identical
  `request_repayment` handlers.
- agent/commands/loan.ts only posts a button and has no ledger logic.
