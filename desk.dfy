/** The bot's handlers that read or change the `loans` table, with Discord
    and Supabase reduced to what they do to the table: a `Ledger` object
    holding the rows, the broadcast offer's button and the borrow request's
    approval message as objects with their `disabled` flags. */
module Desk {
  import opened Loans
  import opened Interest
  import opened Admins
  import opened LedgerSpec

  /** The button `create_loan` posts (bot.py:201-207); it carries the amount only. */
  datatype BorrowButton = BorrowButton(amount: int)

  /** `create_loan`: only an administrator may post the borrow button. */
  function PostBorrowButton(actor: UserId, admins: seq<UserId>, amount: int): (b: Option<BorrowButton>)
    ensures b.Some? <==> IsAdmin(actor, admins)
    ensures b.Some? ==> b.value.amount == amount
  {
    if IsAdmin(actor, admins) then Some(BorrowButton(amount)) else None
  }

  /** The button `announce_loan` posts (bot.py:315-322): first press wins. */
  class Offer {
    const amount: int
    var disabled: bool

    constructor (amount: int)
      ensures this.amount == amount && !disabled
    {
      this.amount := amount;
      disabled := false;
    }
  }

  /** The approval message of one borrow request: who asked, how much, and the
      `disabled` flag of each of its two buttons (approve, reject). */
  class ApprovalView {
    const borrower: UserId
    const amount: int
    const disabled: array<bool>

    constructor (borrower: UserId, amount: int)
      ensures this.borrower == borrower && this.amount == amount
      ensures fresh(disabled) && disabled.Length == 2 && !disabled[0] && !disabled[1]
    {
      this.borrower := borrower;
      this.amount := amount;
      disabled := new bool[2](_ => false);
    }

    predicate Closed()
      reads disabled
    {
      forall i :: 0 <= i < disabled.Length ==> disabled[i]
    }

    /** Disable every button of the message. */
    method DisableAll()
      modifies disabled
      ensures Closed()
    {
      for i := 0 to disabled.Length
        invariant forall k :: 0 <= k < i ==> disabled[k]
      {
        disabled[i] := true;
      }
    }
  }

  /** What the repayment request shows: the user's first pending loan, its
      interest and the total owed. */
  datatype Quote = Quote(loan: Loan, interest: int, total: int)

  datatype Stats = Stats(
    totalLoans: nat, totalAmount: int,
    pendingLoans: nat, pendingAmount: int, pendingInterest: int,
    highInterest: seq<Flagged>)

  datatype StatsReply = StatsDenied | NoData | Report(stats: Stats)

  /** The `announce_loan` command: only an administrator may post an offer. */
  method Announce(actor: UserId, admins: seq<UserId>, amount: int) returns (offer: Offer?)
    ensures (offer != null) == IsAdmin(actor, admins)
    ensures offer != null ==> fresh(offer) && offer.amount == amount && !offer.disabled
  {
    offer := null;
    if IsAdmin(actor, admins) {
      offer := new Offer(amount);
    }
  }

  /** The `loans` table. */
  class Ledger {
    var rows: seq<Loan>

    /** At most one pending loan per user. */
    ghost predicate Valid()
      reads this
    {
      AtMostOnePending(rows)
    }

    constructor ()
      ensures rows == [] && Valid()
    {
      rows := [];
    }

    /** A press of the borrow button: refused when the presser already has a
        pending loan, otherwise an approval message for administrators. */
    method RequestBorrow(button: BorrowButton, u: UserId) returns (view: ApprovalView?)
      ensures (view == null) == HasPending(rows, u)
      ensures view != null ==>
        && fresh(view) && fresh(view.disabled) && view.borrower == u
        && view.amount == button.amount && view.disabled.Length == 2
        && !view.disabled[0] && !view.disabled[1]
    {
      view := null;
      if !HasPending(rows, u) {
        view := new ApprovalView(u, button.amount);
      }
    }

    /** The approve button of a borrow request, corrected: an administrator
        inserts the pending loan only after re-checking that the borrower has
        none, and the message's buttons are disabled. The handler as written
        (bot.py:228-234) inserts without the re-check; that is
        `LedgerSpec.ApproveBorrowAsWritten`. */
    method ApproveBorrow(view: ApprovalView, actor: UserId, admins: seq<UserId>, now: int)
      returns (reply: Reply)
      requires Valid()
      modifies this, view.disabled
      ensures Valid() && Evolves(old(rows), rows)
      ensures !IsAdmin(actor, admins) ==> reply == Denied && rows == old(rows) && unchanged(view.disabled)
      ensures IsAdmin(actor, admins) ==>
        (rows, reply) == CheckedApproval(old(rows), view.borrower, view.amount, now) && view.Closed()
    {
      if !IsAdmin(actor, admins) {
        return Denied;
      }
      var outcome := CheckedApproval(rows, view.borrower, view.amount, now);
      rows, reply := outcome.0, outcome.1;
      view.DisableAll();
    }

    /** The reject button of a borrow request: no change to the table. */
    method RejectBorrow(view: ApprovalView, actor: UserId, admins: seq<UserId>) returns (reply: Reply)
      modifies view.disabled
      ensures rows == old(rows)
      ensures reply == if IsAdmin(actor, admins) then Rejected else Denied
      ensures IsAdmin(actor, admins) ==> view.Closed()
      ensures !IsAdmin(actor, admins) ==> unchanged(view.disabled)
    {
      if !IsAdmin(actor, admins) {
        return Denied;
      }
      view.DisableAll();
      reply := Rejected;
    }

    /** A press of a broadcast offer's button by user u. */
    method ClaimOffer(offer: Offer, u: UserId, now: int) returns (reply: Reply)
      requires Valid()
      modifies this, offer
      ensures Valid() && Evolves(old(rows), rows)
      ensures (OfferState(rows, offer.disabled), reply)
           == Claim(OfferState(old(rows), old(offer.disabled)), offer.amount, u, now)
    {
      if offer.disabled {
        return AlreadyClaimed;
      }
      if HasPending(rows, u) {
        return HasDebt;
      }
      var l := Loan(u, offer.amount, Pending, At(now));
      InsertKeepsInvariant(rows, l);
      rows := rows + [l];
      offer.disabled := true;
      reply := Granted;
    }

    /** `transfer_credit`: an administrator records credit given outright, as a
        `completed` row, to a user without a pending loan. */
    method TransferCredit(actor: UserId, admins: seq<UserId>, u: UserId, amount: int, now: int)
      returns (reply: Reply)
      requires Valid()
      modifies this
      ensures Valid() && Evolves(old(rows), rows)
      ensures !IsAdmin(actor, admins) ==> reply == Denied && rows == old(rows)
      ensures IsAdmin(actor, admins) && HasPending(old(rows), u) ==> reply == HasDebt && rows == old(rows)
      ensures IsAdmin(actor, admins) && !HasPending(old(rows), u) ==>
        reply == Granted && rows == old(rows) + [Loan(u, amount, Completed, At(now))]
    {
      if !IsAdmin(actor, admins) {
        return Denied;
      }
      if HasPending(rows, u) {
        return HasDebt;
      }
      var l := Loan(u, amount, Completed, At(now));
      InsertKeepsInvariant(rows, l);
      AppendEvolves(rows, l);
      rows := rows + [l];
      reply := Granted;
    }

    /** `clear_debt`: an administrator forgives all of u's pending loans and is
        told the principal forgiven. `userFound` is whether the id parses and
        names a Discord user; if not, nothing happens. */
    method ClearDebt(actor: UserId, admins: seq<UserId>, u: UserId, userFound: bool)
      returns (reply: Reply)
      requires Valid()
      modifies this
      ensures Valid() && Evolves(old(rows), rows)
      ensures !IsAdmin(actor, admins) ==> reply == Denied && rows == old(rows)
      ensures IsAdmin(actor, admins) && !userFound ==> reply == LookupFailed && rows == old(rows)
      ensures IsAdmin(actor, admins) && userFound ==>
        && rows == MarkPending(old(rows), u, Cleared)
        && reply == if PendingOf(old(rows), u) == [] then NothingToClear
                    else DebtCleared(SumAmounts(PendingOf(old(rows), u)))
    {
      if !IsAdmin(actor, admins) {
        return Denied;
      }
      if !userFound {
        return LookupFailed;
      }
      var affected := PendingOf(rows, u);
      MarkPendingKeepsInvariant(rows, u, Cleared);
      MarkPendingEvolves(rows, u, Cleared);
      rows := MarkPending(rows, u, Cleared);
      if affected != [] {
        reply := DebtCleared(SumAmounts(affected));
      } else {
        reply := NothingToClear;
      }
    }

    /** The repayment request (`request_repayment`, and the RepaymentView
        button): refused without a pending loan, otherwise the first pending
        loan with its interest and total; under the invariant that loan is the
        user's whole debt. */
    method RequestRepayment(u: UserId, now: int) returns (quote: Option<Quote>)
      ensures quote.None? <==> !HasPending(rows, u)
      ensures quote.Some? ==>
        && quote.value.loan == PendingOf(rows, u)[0]
        && quote.value.loan in rows && IsPendingOf(quote.value.loan, u)
        && quote.value.interest == CalculateInterest(quote.value.loan, now)
        && quote.value.total == TotalOwed(quote.value.loan, now)
        && (Valid() ==> PendingOf(rows, u) == [quote.value.loan])
    {
      var loans := PendingOf(rows, u);
      if loans == [] {
        return None;
      }
      var loan := loans[0];
      assert loan in loans;
      if Valid() {
        PendingOfAtMostOne(rows, u);
      }
      var interest := CalculateInterest(loan, now);
      quote := Some(Quote(loan, interest, TotalOwed(loan, now)));
    }

    /** The approve button of a repayment request: an administrator marks all
        of u's pending loans completed. */
    method ApproveRepayment(actor: UserId, admins: seq<UserId>, u: UserId) returns (reply: Reply)
      requires Valid()
      modifies this
      ensures Valid() && Evolves(old(rows), rows)
      ensures !IsAdmin(actor, admins) ==> reply == Denied && rows == old(rows)
      ensures IsAdmin(actor, admins) ==>
        && reply == RepaymentApproved
        && rows == MarkPending(old(rows), u, Completed)
        && !HasPending(rows, u)
    {
      if !IsAdmin(actor, admins) {
        return Denied;
      }
      MarkPendingKeepsInvariant(rows, u, Completed);
      MarkPendingEvolves(rows, u, Completed);
      MarkPendingSettles(rows, u, Completed);
      rows := MarkPending(rows, u, Completed);
      reply := RepaymentApproved;
    }

    /** `view_stats`: counts and sums over all and over pending rows, and the
        pending loans whose interest exceeds the principal. */
    method ViewStats(actor: UserId, admins: seq<UserId>, now: int) returns (r: StatsReply)
      ensures !IsAdmin(actor, admins) ==> r == StatsDenied
      ensures IsAdmin(actor, admins) && rows == [] ==> r == NoData
      ensures IsAdmin(actor, admins) && rows != [] ==>
        r == Report(Stats(
          |rows|, SumAmounts(rows),
          |FilterPending(rows)|, SumAmounts(FilterPending(rows)), SumInterest(FilterPending(rows), now),
          HighInterest(rows, now)))
    {
      if !IsAdmin(actor, admins) {
        return StatsDenied;
      }
      if rows == [] {
        return NoData;
      }
      var high: seq<Flagged> := [];
      var i := 0;
      while i < |rows|
        invariant 0 <= i <= |rows|
        invariant high == HighInterest(rows[..i], now)
      {
        var loan := rows[i];
        HighInterestStep(rows, i, now);
        if loan.status == Pending {
          var interest := CalculateInterest(loan, now);
          if interest > loan.amount {
            high := high + [Flagged(loan.userId, loan.amount, interest)];
          }
        }
        i := i + 1;
      }
      assert rows[..|rows|] == rows;
      var pending := FilterPending(rows);
      r := Report(Stats(|rows|, SumAmounts(rows), |pending|, SumAmounts(pending),
                        SumInterest(pending, now), high));
    }

    /** One cycle of the high-interest monitor: over the pending rows, the
        loans whose interest exceeds the principal, each to be warned about. */
    method MonitorCycle(now: int) returns (alerts: seq<Flagged>)
      ensures alerts == HighInterest(rows, now)
    {
      var pending := FilterPending(rows);
      alerts := [];
      var i := 0;
      while i < |pending|
        invariant 0 <= i <= |pending|
        invariant alerts == HighInterest(pending[..i], now)
      {
        var loan := pending[i];
        assert loan in pending;
        HighInterestStep(pending, i, now);
        var interest := CalculateInterest(loan, now);
        if interest > loan.amount {
          alerts := alerts + [Flagged(loan.userId, loan.amount, interest)];
        }
        i := i + 1;
      }
      assert pending[..|pending|] == pending;
      HighInterestOfPending(rows, now);
    }
  }
}
