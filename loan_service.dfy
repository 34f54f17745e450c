/** The loan lifecycle: a loan reserves an Active copy (Borrowed), a return
    releases it (Returned) and assesses a penalty, and the generic update
    overwrites the loan status with an audit record. */
module LoanService {
  import opened Common
  import opened Entities
  import opened Data
  import PenaltyService

  // ---------------------------------------------------------------------
  // Loans and copies agree

  /** The loans still open (status Borrowed) on copy c. */
  function OpenLoansOf(loans: map<LoanId, Loan>, c: CopyId): set<LoanId>
  {
    set l | l in loans && loans[l].copyId == c && loans[l].status == Borrowed.Name()
  }

  /** Every Borrowed copy has exactly one open loan, and every other copy none. */
  ghost predicate LoansMatchCopies(loans: map<LoanId, Loan>, copies: map<CopyId, BookCopy>)
  {
    forall c :: c in copies ==> |OpenLoansOf(loans, c)| == (if copies[c].status == Borrowed.Name() then 1 else 0)
  }

  /** Reserving an Active copy for a new Borrowed loan keeps loans and copies in agreement. */
  lemma {:induction false} ReserveKeepsLoansMatchingCopies(loans: map<LoanId, Loan>, copies: map<CopyId, BookCopy>, id: LoanId, loan: Loan)
    requires LoansMatchCopies(loans, copies)
    requires id !in loans
    requires loan.copyId in copies && copies[loan.copyId].status == Active.Name()
    requires loan.status == Borrowed.Name()
    ensures LoansMatchCopies(loans[id := loan], copies[loan.copyId := copies[loan.copyId].(status := Borrowed.Name())])
  {
    var loans', copies' := loans[id := loan], copies[loan.copyId := copies[loan.copyId].(status := Borrowed.Name())];
    forall c | c in copies'
      ensures |OpenLoansOf(loans', c)| == (if copies'[c].status == Borrowed.Name() then 1 else 0)
    {
      if c == loan.copyId {
        assert |OpenLoansOf(loans, c)| == 0;
        assert OpenLoansOf(loans', c) == {id};
      } else {
        assert OpenLoansOf(loans', c) == OpenLoansOf(loans, c);
      }
    }
  }

  /** Returning an open loan and releasing its copy keeps loans and copies in agreement. */
  lemma {:induction false} ReleaseKeepsLoansMatchingCopies(loans: map<LoanId, Loan>, copies: map<CopyId, BookCopy>, id: LoanId, now: Instant)
    requires LoansMatchCopies(loans, copies)
    requires id in loans && loans[id].status == Borrowed.Name() && loans[id].copyId in copies
    ensures var c := loans[id].copyId;
      LoansMatchCopies(loans[id := loans[id].(returnDate := Some(now), status := Returned.Name())],
                       copies[c := copies[c].(status := Active.Name())])
  {
    var c0 := loans[id].copyId;
    var loans' := loans[id := loans[id].(returnDate := Some(now), status := Returned.Name())];
    var copies' := copies[c0 := copies[c0].(status := Active.Name())];
    forall c | c in copies'
      ensures |OpenLoansOf(loans', c)| == (if copies'[c].status == Borrowed.Name() then 1 else 0)
    {
      if c == c0 {
        var open := OpenLoansOf(loans, c);
        assert id in open;
        assert |open| == 1;
        assert |open - {id}| == 0;
        assert OpenLoansOf(loans', c) == open - {id};
      } else {
        assert OpenLoansOf(loans', c) == OpenLoansOf(loans, c);
      }
    }
  }

  // ---------------------------------------------------------------------
  // Operations

  predicate MemberIdNumberKnown(members: map<MemberId, string>, idNumber: string)
  {
    exists m :: m in members && members[m] == idNumber
  }

  predicate CopyAvailable(copies: map<CopyId, BookCopy>, c: CopyId)
  {
    c in copies && copies[c].status == Active.Name()
  }

  /** The Borrowed loan AddLoanAsync records for a member, an employee and a copy. */
  function NewLoan(memberId: MemberId, employeeId: EmployeeId, copyId: CopyId, howManyDays: int, now: Instant): Loan
  {
    Loan(now, howManyDays, AddDays(now, howManyDays), None, Borrowed.Name(), memberId, employeeId, copyId)
  }

  /** The state change of a successful AddLoanAsync: insert the loan under the
      next identity value and mark its copy Borrowed. */
  method ReserveCopy(db: LibraryContext, loan: Loan)
    requires db.Valid()
    requires CopyAvailable(db.copies, loan.copyId) && loan.status == Borrowed.Name()
    modifies db`loans, db`copies, db`nextLoanId
    ensures db.Valid()
    ensures db.nextLoanId == old(db.nextLoanId) + 1
    ensures db.loans == old(db.loans)[old(db.nextLoanId) := loan]
    ensures db.copies == old(db.copies)[loan.copyId := BookCopy(old(db.copies)[loan.copyId].bookId, Borrowed.Name())]
    ensures old(LoansMatchCopies(db.loans, db.copies)) ==> LoansMatchCopies(db.loans, db.copies)
  {
    if LoansMatchCopies(db.loans, db.copies) {
      ReserveKeepsLoansMatchingCopies(db.loans, db.copies, db.nextLoanId, loan);
    }
    db.loans := db.loans[db.nextLoanId := loan];
    db.nextLoanId := db.nextLoanId + 1;
    db.copies := db.copies[loan.copyId := db.copies[loan.copyId].(status := Borrowed.Name())];
  }

  /** AddLoanAsync: checks the member (by IdNumber), then the employee, then that
      the copy exists and is Active; on success records a Borrowed loan due
      howManyDays after now and marks the copy Borrowed. No audit record. */
  method AddLoan(db: LibraryContext, copyId: CopyId, memberIdNumber: string, employeeId: EmployeeId,
                 howManyDays: int, now: Instant) returns (r: ServiceResult<string>)
    requires db.Valid()
    modifies db`loans, db`copies, db`nextLoanId
    ensures db.Valid()
    ensures !MemberIdNumberKnown(db.members, memberIdNumber) ==>
      r == Failure("Member with the given IDNumber does not exist!")
    ensures MemberIdNumberKnown(db.members, memberIdNumber) && employeeId !in db.employees ==>
      r == Failure("Employee does not exist")
    ensures MemberIdNumberKnown(db.members, memberIdNumber) && employeeId in db.employees
            && !CopyAvailable(old(db.copies), copyId) ==>
      r == Failure("Book copy not available for loan")
    ensures r.Failure? ==> unchanged(db)
    ensures r.Success? <==>
      MemberIdNumberKnown(db.members, memberIdNumber) && employeeId in db.employees && CopyAvailable(old(db.copies), copyId)
    ensures r.Success? ==>
      var id := old(db.nextLoanId);
      && r == Success("Loan successfully created!")
      && db.nextLoanId == id + 1
      && id in db.loans && db.loans == old(db.loans)[id := db.loans[id]]
      && db.loans[id] == NewLoan(db.loans[id].memberId, employeeId, copyId, howManyDays, now)
      && db.loans[id].memberId in db.members && db.members[db.loans[id].memberId] == memberIdNumber
      && db.copies == old(db.copies)[copyId := BookCopy(old(db.copies)[copyId].bookId, Borrowed.Name())]
    ensures old(LoansMatchCopies(db.loans, db.copies)) ==> LoansMatchCopies(db.loans, db.copies)
  {
    var copyAvailable := copyId in db.copies && db.copies[copyId].status == Active.Name();
    if !(exists m :: m in db.members && db.members[m] == memberIdNumber) {
      return Failure("Member with the given IDNumber does not exist!");
    }
    var memberId :| memberId in db.members && db.members[memberId] == memberIdNumber;
    if employeeId !in db.employees {
      return Failure("Employee does not exist");
    }
    if !copyAvailable {
      return Failure("Book copy not available for loan");
    }
    ReserveCopy(db, NewLoan(memberId, employeeId, copyId, howManyDays, now));
    r := Success("Loan successfully created!");
  }

  /** UpdateLoanAsync: overwrites the loan status with any non-null value,
      refusing only Returned on a loan that is not Borrowed; a real change
      appends one audit record naming the acting employee. The copy is not
      touched. */
  method UpdateLoan(db: LibraryContext, loanId: LoanId, employeeId: EmployeeId, newStatus: Option<string>, now: Instant)
    returns (r: ServiceResult<bool>)
    requires db.Valid()
    modifies db`loans, db`loanTransactions
    ensures db.Valid()
    ensures loanId !in old(db.loans) ==> r == Failure("Loan not found") && unchanged(db)
    ensures loanId in old(db.loans) && newStatus == Some(Returned.Name())
            && old(db.loans)[loanId].status != Borrowed.Name() ==>
      r == Failure("The loan cannot be marked as returned if the book is not currently borrowed.") && unchanged(db)
    ensures r.Success? <==>
      loanId in old(db.loans) && !(newStatus == Some(Returned.Name()) && old(db.loans)[loanId].status != Borrowed.Name())
    ensures r.Success? ==> r == Success(true)
    ensures r.Success? && newStatus.Some? && newStatus.value != old(db.loans)[loanId].status ==>
      && db.loans == old(db.loans)[loanId := old(db.loans)[loanId].(status := newStatus.value)]
      && db.loanTransactions == old(db.loanTransactions) + [LoanTransaction(loanId, employeeId, newStatus, now)]
    ensures r.Success? && !(newStatus.Some? && newStatus.value != old(db.loans)[loanId].status) ==>
      unchanged(db)
  {
    if loanId !in db.loans {
      return Failure("Loan not found");
    }
    var loan := db.loans[loanId];
    if newStatus == Some(Returned.Name()) && loan.status != Borrowed.Name() {
      return Failure("The loan cannot be marked as returned if the book is not currently borrowed.");
    }
    if newStatus.Some? && loan.status != newStatus.value {
      db.loans := db.loans[loanId := loan.(status := newStatus.value)];
      db.loanTransactions := db.loanTransactions + [LoanTransaction(loanId, employeeId, newStatus, now)];
    }
    r := Success(true);
  }

  /** The loan and copy changes of a successful ReturnBookAsync: stamp the
      return, log it under the loan's own employee and release the copy. */
  method ReleaseCopy(db: LibraryContext, loanId: LoanId, now: Instant)
    requires db.Valid()
    requires loanId in db.loans && db.loans[loanId].status == Borrowed.Name()
    modifies db`loans, db`loanTransactions, db`copies
    ensures db.Valid()
    ensures var loan := old(db.loans)[loanId];
      && db.loans == old(db.loans)[loanId := loan.(returnDate := Some(now), status := Returned.Name())]
      && db.loanTransactions == old(db.loanTransactions) + [LoanTransaction(loanId, loan.employeeId, Some(Returned.Name()), now)]
      && db.copies == old(db.copies)[loan.copyId := old(db.copies)[loan.copyId].(status := Active.Name())]
    ensures old(LoansMatchCopies(db.loans, db.copies)) ==> LoansMatchCopies(db.loans, db.copies)
  {
    var loan := db.loans[loanId];
    if LoansMatchCopies(db.loans, db.copies) {
      ReleaseKeepsLoansMatchingCopies(db.loans, db.copies, loanId, now);
    }
    var returned := loan.(returnDate := Some(now), status := Returned.Name());
    db.loans := db.loans[loanId := returned];
    db.loanTransactions := db.loanTransactions + [LoanTransaction(loanId, returned.employeeId, Some(returned.status), now)];
    db.copies := db.copies[loan.copyId := db.copies[loan.copyId].(status := Active.Name())];
  }

  /** ReturnBookAsync: only a Borrowed loan can be returned, so a second
      return fails. The return stamps the date and Returned, appends an audit
      record under the loan's own employee, sets the copy back to Active and
      assesses the penalty from the loan's due date and member. */
  method ReturnBook(db: LibraryContext, loanId: LoanId, now: Instant) returns (r: ServiceResult<bool>)
    requires db.Valid()
    modifies db`loans, db`loanTransactions, db`copies, db`penalties
    ensures db.Valid()
    ensures loanId !in old(db.loans) ==> r == Failure("Loan not found") && unchanged(db)
    ensures loanId in old(db.loans) && old(db.loans)[loanId].status != Borrowed.Name() ==>
      r == Failure("Book is not borrowed") && unchanged(db)
    ensures r.Success? <==> loanId in old(db.loans) && old(db.loans)[loanId].status == Borrowed.Name()
    ensures r.Success? ==>
      var loan := old(db.loans)[loanId];
      && r == Success(true)
      && db.loans == old(db.loans)[loanId := loan.(returnDate := Some(now), status := Returned.Name())]
      && db.loanTransactions == old(db.loanTransactions) + [LoanTransaction(loanId, loan.employeeId, Some(Returned.Name()), now)]
      && db.copies == old(db.copies)[loan.copyId := old(db.copies)[loan.copyId].(status := Active.Name())]
      && (now <= loan.dueDate ==> db.penalties == old(db.penalties))
      && (now > loan.dueDate ==>
            && |db.penalties| == |old(db.penalties)| + 1
            && db.penalties[..|old(db.penalties)|] == old(db.penalties)
            && fresh(db.penalties[|old(db.penalties)|])
            && PenaltyService.Assessed(db.penalties[|old(db.penalties)|], loan.memberId, loan.dueDate, now))
    ensures old(LoansMatchCopies(db.loans, db.copies)) ==> LoansMatchCopies(db.loans, db.copies)
  {
    if loanId !in db.loans {
      return Failure("Loan not found");
    }
    var loan := db.loans[loanId];
    if loan.status != Borrowed.Name() {
      return Failure("Book is not borrowed");
    }
    ReleaseCopy(db, loanId, now);
    var _ := PenaltyService.CalculatePenalties(db, loan.memberId, Some(now), loan.dueDate);
    r := Success(true);
  }
}
