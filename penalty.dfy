/** The Penalty entity: an overdue fee owed by a member, with the tier
    classification that CalculatePenaltyDetails fills in. */
module Penalties {
  import opened Common
  import PT = PenaltyTypes

  /** The default daily fee of 0.5, in hundredths (the column is decimal(18,2)). */
  const DailyFeeCents: int := 50

  /** The tier chain of CalculatePenaltyDetails (first match wins), stated as
      the five disjoint ranges it actually selects. */
  function Tier(overdueDays: int): (t: PT.PenaltyType)
    ensures t == PT.None <==> overdueDays <= 10
    ensures t == PT.BookTenDays <==> 10 < overdueDays <= 30
    ensures t == PT.BookTwoMonths <==> 30 < overdueDays <= 60
    ensures t == PT.BookOneYear <==> 60 < overdueDays <= 365
    ensures t == PT.BookLimitless <==> 365 < overdueDays
  {
    if 30 < overdueDays <= 60 then PT.BookTwoMonths
    else if 60 < overdueDays <= 365 then PT.BookOneYear
    else if overdueDays > 365 then PT.BookLimitless
    else if overdueDays > 10 then PT.BookTenDays
    else PT.None
  }

  /** The classification never yields one of the Library* values. */
  lemma TierIsNeverLibraryTier(overdueDays: int)
    ensures !Tier(overdueDays).IsLibraryTier()
    ensures Tier(overdueDays).Ordinal() <= 4
  {
  }

  /** More overdue days never give a milder tier. */
  lemma TierMonotone(d1: int, d2: int)
    requires d1 <= d2
    ensures Tier(d1).Ordinal() <= Tier(d2).Ordinal()
  {
  }

  /** Worked examples: 11, 45 and 400 days late. */
  lemma TierExamples()
    ensures Tier(11) == PT.BookTenDays && DailyFeeCents * 11 == 550
    ensures Tier(45) == PT.BookTwoMonths && DailyFeeCents * 45 == 2250
    ensures Tier(400) == PT.BookLimitless && DailyFeeCents * 400 == 20000
    ensures Tier(6) == PT.None
  {
  }

  class Penalty {
    var dailyFee: int                 // hundredths
    var totalFee: Option<int>         // hundredths
    var startDate: Instant
    var endDate: Option<Instant>
    var overdueDays: Option<int>
    var penaltyType: Option<PT.PenaltyType>
    var memberId: string

    /** The object initializer used by the penalty service. */
    constructor (dailyFee: int, startDate: Instant, endDate: Option<Instant>,
                 overdueDays: Option<int>, memberId: string, totalFee: Option<int>)
      ensures this.dailyFee == dailyFee && this.startDate == startDate
      ensures this.endDate == endDate && this.overdueDays == overdueDays
      ensures this.memberId == memberId && this.totalFee == totalFee
      ensures this.penaltyType == Option.None
    {
      this.dailyFee := dailyFee;
      this.startDate := startDate;
      this.endDate := endDate;
      this.overdueDays := overdueDays;
      this.memberId := memberId;
      this.totalFee := totalFee;
      this.penaltyType := Option.None;
    }

    /** The fields CalculatePenaltyDetails derives from an end date. */
    ghost predicate DetailsFrom(end: Instant)
      reads this
    {
      var days := WholeDays(end - startDate);
      && overdueDays == Some(days)
      && totalFee == Some(dailyFee * days)
      && penaltyType == Some(Tier(days))
    }

    /** Derives the overdue days, the total fee and the tier from the start and
        end dates; with no end date nothing changes. */
    method CalculatePenaltyDetails()
      modifies this
      ensures dailyFee == old(dailyFee) && startDate == old(startDate)
      ensures endDate == old(endDate) && memberId == old(memberId)
      ensures old(endDate).None? ==> unchanged(this)
      ensures old(endDate).Some? ==> DetailsFrom(old(endDate).value)
    {
      if endDate.Some? {
        var days := WholeDays(endDate.value - startDate);
        overdueDays := Some(days);
        totalFee := Some(dailyFee * days);
        if days > 30 && days <= 60 {
          penaltyType := Some(PT.BookTwoMonths);
        } else if days > 60 && days <= 365 {
          penaltyType := Some(PT.BookOneYear);
        } else if days > 365 {
          penaltyType := Some(PT.BookLimitless);
        } else if days > 10 {
          penaltyType := Some(PT.BookTenDays);
        } else {
          penaltyType := Some(PT.None);
        }
      }
    }
  }
}
