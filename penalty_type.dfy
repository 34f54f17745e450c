/** The PenaltyType enum and its declared numeric values. */
module PenaltyTypes {

  datatype PenaltyType =
    | None
    | BookTenDays
    | BookTwoMonths
    | BookOneYear
    | BookLimitless
    | LibraryTenDays
    | LibraryTwoMonths
    | LibraryOneYear
    | LibraryLimitless
  {
    /** The enum's numeric value (declaration order, starting at 0). */
    function Ordinal(): nat
    {
      match this
      case None => 0
      case BookTenDays => 1
      case BookTwoMonths => 2
      case BookOneYear => 3
      case BookLimitless => 4
      case LibraryTenDays => 5
      case LibraryTwoMonths => 6
      case LibraryOneYear => 7
      case LibraryLimitless => 8
    }

    predicate IsLibraryTier()
    {
      LibraryTenDays? || LibraryTwoMonths? || LibraryOneYear? || LibraryLimitless?
    }
  }
}
