/** The records the circulation and catalog services read and update. Only the
    fields those services use are kept. Status columns are plain strings
    because the services store whatever string they are given. */
module Entities {
  import opened Common

  type BookId = int
  type CopyId = int
  type LoanId = int
  type AuthorId = int
  type LanguageId = int
  type CategoryId = int
  type SubCategoryId = int
  type PublisherId = int
  type LocationId = int
  type MemberId = string
  type EmployeeId = string

  datatype Book = Book(
    isbn: string,
    title: string,
    status: string,
    publisherId: Option<PublisherId>,
    locationId: Option<LocationId>)

  /** One physical, lendable copy of a book. */
  datatype BookCopy = BookCopy(bookId: BookId, status: string)

  datatype Loan = Loan(
    loanedDate: Instant,
    countDay: int,
    dueDate: Instant,
    returnDate: Option<Instant>,
    status: string,
    memberId: MemberId,
    employeeId: EmployeeId,
    copyId: CopyId)

  /** An audit record of a loan status change. */
  datatype LoanTransaction = LoanTransaction(
    loanId: LoanId,
    employeeId: EmployeeId,
    status: Option<string>,
    loanUpdate: Instant)

  datatype Author = Author(
    fullName: string,
    biography: Option<string>,
    birthYear: Option<int>,
    deathYear: Option<int>,
    status: string,
    languageId: LanguageId)

  datatype Language = Language(name: string, nationalityId: int, status: string)

  datatype Category = Category(name: string, status: string)

  datatype SubCategory = SubCategory(name: string, categoryId: Option<CategoryId>, status: string)

  datatype Publisher = Publisher(name: string, status: string)

  datatype Location = Location(sectionCode: string, aisleCode: string, shelfNumber: string, status: string)
}
