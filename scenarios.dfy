/** Client code of the Desk: short runs of the broadcast offer, a repayment,
    a debt clear and the borrow flow, checked against the handlers' contracts
    and the lemmas about the specification functions alone. */
module Scenarios {
  import opened Loans
  import opened Interest
  import opened LedgerSpec
  import opened Desk

  /** The first press of a broadcast offer takes it; a later press is told
      the offer is gone and changes nothing. */
  method ClaimStory(t0: int)
  {
    var admins := ["42"];
    var ledger := new Ledger();
    var offer := Announce("42", admins, 1000);
    assert offer != null;
    var reply := ledger.ClaimOffer(offer, "7", t0);
    assert reply == Granted;
    assert ledger.rows == [Loan("7", 1000, Pending, At(t0))];
    var late := ledger.ClaimOffer(offer, "8", t0 + 1);
    assert late == AlreadyClaimed && |ledger.rows| == 1;
  }

  /** A 1000-credit loan owes 200 in interest two hours after it was taken. */
  method QuoteStory(t0: int)
  {
    var admins := ["42"];
    var ledger := new Ledger();
    var offer := Announce("42", admins, 1000);
    var reply := ledger.ClaimOffer(offer, "7", t0);
    assert ledger.rows == [Loan("7", 1000, Pending, At(t0))];
    assert ledger.rows[0] in PendingOf(ledger.rows, "7");
    var quote := ledger.RequestRepayment("7", t0 + 7200);
    assert quote.Some? && quote.value.loan == Loan("7", 1000, Pending, At(t0));
    InterestWholeHours(quote.value.loan, 2);
    assert quote.value.interest == 200 && quote.value.total == 1200;
  }

  /** Only an administrator's approval settles a loan; once settled it accrues
      nothing, and a second approval changes nothing. */
  method RepaymentStory(t0: int)
  {
    var admins := ["42"];
    var ledger := new Ledger();
    var offer := Announce("42", admins, 1000);
    var reply := ledger.ClaimOffer(offer, "7", t0);
    assert ledger.rows == [Loan("7", 1000, Pending, At(t0))];
    var denied := ledger.ApproveRepayment("7", admins, "7");
    assert denied == Denied && ledger.rows == [Loan("7", 1000, Pending, At(t0))];
    var approved := ledger.ApproveRepayment("42", admins, "7");
    assert ledger.rows == [Loan("7", 1000, Completed, At(t0))];
    assert CalculateInterest(ledger.rows[0], t0 + 7200) == 0;
    var again := ledger.ApproveRepayment("42", admins, "7");
    assert ledger.rows == [Loan("7", 1000, Completed, At(t0))];
  }

  /** A credit transfer is not a debt, so the user can still take an offer;
      with that loan pending, the next offer is refused and stays open. */
  method DebtRefusalStory(t0: int)
  {
    var admins := ["42"];
    var ledger := new Ledger();
    var given := ledger.TransferCredit("42", admins, "9", 50, t0);
    assert given == Granted;
    assert ledger.rows == [Loan("9", 50, Completed, At(t0))];
    var a := Announce("42", admins, 300);
    var r1 := ledger.ClaimOffer(a, "9", t0);
    assert r1 == Granted;
    assert ledger.rows == [Loan("9", 50, Completed, At(t0)), Loan("9", 300, Pending, At(t0))];
    assert IsPendingOf(ledger.rows[1], "9");
    assert ledger.rows[1] in PendingOf(ledger.rows, "9");
    var b := Announce("42", admins, 500);
    var r2 := ledger.ClaimOffer(b, "9", t0);
    assert r2 == HasDebt && !b.disabled;
  }

  /** Clearing reports the principal it forgave; a second clear finds nothing. */
  method ClearStory(t0: int)
  {
    var admins := ["42"];
    var ledger := new Ledger();
    var a := Announce("42", admins, 300);
    var r1 := ledger.ClaimOffer(a, "9", t0);
    var before := ledger.rows;
    assert before == [Loan("9", 300, Pending, At(t0))];
    assert PendingOf(before, "9") == [Loan("9", 300, Pending, At(t0))];
    var cleared := ledger.ClearDebt("42", admins, "9", true);
    assert cleared == DebtCleared(300);
    assert ledger.rows == [Loan("9", 300, Cleared, At(t0))];
    var twice := ledger.ClearDebt("42", admins, "9", true);
    assert twice == NothingToClear;
  }

  /** Two requests opened by one user while owing nothing, run through the
      corrected approval handler: the first approval inserts the loan, and
      the second, re-checking, finds it and inserts nothing. (The handler as
      written would insert again; see `LedgerSpec.DoubleApprovalAsWritten`.)
      A rejection leaves the table alone. */
  method BorrowStory(t0: int)
  {
    var admins := ["42"];
    var ledger := new Ledger();
    var button := PostBorrowButton("42", admins, 100);
    assert button.Some?;
    var first := ledger.RequestBorrow(button.value, "5");
    var second := ledger.RequestBorrow(button.value, "5");
    assert first != null && second != null;
    var r1 := ledger.ApproveBorrow(first, "42", admins, t0);
    assert r1 == Granted && ledger.rows == [Loan("5", 100, Pending, At(t0))];
    var r2 := ledger.ApproveBorrow(second, "42", admins, t0 + 60);
    assert r2 == HasDebt && ledger.rows == [Loan("5", 100, Pending, At(t0))];

    var third := ledger.RequestBorrow(button.value, "6");
    assert third != null;
    var r3 := ledger.RejectBorrow(third, "42", admins);
    assert r3 == Rejected && ledger.rows == [Loan("5", 100, Pending, At(t0))];
  }

  /** Three users without debt press one fresh offer in turn: the first wins
      the only new row and the other two are told it is gone. */
  method RaceStory(t0: int)
  {
    var st := OfferState([], false);
    var users := ["1", "2", "3"];
    ClaimRace(st, 500, users, t0);
    ClaimRaceOrder(st, 500, users, t0);
    var p := ClaimAll(st, 500, users, t0);
    assert !HasPending([], users[0]);
    assert p.state.claimed;
    var w :| 0 <= w < |users| && Winner(st, 500, users, t0, p, w);
    assert w == 0;
    assert p.replies == [Granted, AlreadyClaimed, AlreadyClaimed];
    assert p.state.rows == [Loan("1", 500, Pending, At(t0))];
  }
}
