/** Penalty accrual on a late return. */
module PenaltyService {
  import opened Common
  import opened Entities
  import opened Penalties
  import PenaltyTypes
  import opened Data

  /** p is the penalty written for a return at `returned` against `due`:
      it runs from the due date to the return date, for the member, at the
      fixed daily fee, with the derived days, fee and tier. */
  ghost predicate Assessed(p: Penalty, memberId: MemberId, due: Instant, returned: Instant)
    reads p
  {
    && p.startDate == due
    && p.endDate == Some(returned)
    && p.memberId == memberId
    && p.dailyFee == DailyFeeCents
    && p.DetailsFrom(returned)
  }

  /** CalculatePenaltiesAsync: a late return (a return date after the due date)
      appends exactly one penalty; any other call appends nothing. Every call
      succeeds. */
  method CalculatePenalties(db: LibraryContext, memberId: MemberId, returnDate: Option<Instant>, dueDate: Instant)
    returns (r: ServiceResult<bool>)
    modifies db`penalties
    ensures r == Success(true)
    ensures !(returnDate.Some? && returnDate.value > dueDate) ==> db.penalties == old(db.penalties)
    ensures returnDate.Some? && returnDate.value > dueDate ==>
      && |db.penalties| == |old(db.penalties)| + 1
      && db.penalties[..|old(db.penalties)|] == old(db.penalties)
      && fresh(db.penalties[|old(db.penalties)|])
      && Assessed(db.penalties[|old(db.penalties)|], memberId, dueDate, returnDate.value)
  {
    if returnDate.Some? && returnDate.value > dueDate {
      var overdueDays := WholeDays(returnDate.value - dueDate);
      var dailyFee := DailyFeeCents;
      var penalty := new Penalty(dailyFee, dueDate, returnDate, Some(overdueDays), memberId, Some(dailyFee * overdueDays));
      penalty.CalculatePenaltyDetails();
      db.penalties := db.penalties + [penalty];
    }
    r := Success(true);
  }

  /** What an assessed penalty holds: at least zero whole days, zero when the
      return is less than a day late, and a fee of 0.5 per day. */
  lemma AssessmentBounds(p: Penalty, memberId: MemberId, due: Instant, returned: Instant)
    requires due < returned
    requires Assessed(p, memberId, due, returned)
    ensures p.overdueDays.Some? && p.overdueDays.value >= 0
    ensures returned - due < SecondsPerDay ==> p.overdueDays == Some(0) && p.totalFee == Some(0)
    ensures p.totalFee == Some(50 * p.overdueDays.value)
    ensures p.overdueDays.value <= 10 ==> p.penaltyType == Some(PenaltyTypes.None)
  {
  }
}
