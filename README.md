# Library circulation and catalog-status engine

A Dafny model of the business core of LibraryAPI, an ASP.NET library
back end. The model covers four parts.

- **Loan lifecycle.** A loan reserves an Active copy and marks it Borrowed.
  A return releases the copy to Active, appends an audit record
  (LoanTransaction) and assesses a penalty. A generic update overwrites the
  loan status and logs the change.
- **Penalty calculation.** The overdue days, the fee (0.5 per day, kept as 50
  hundredths) and the five-way tier classification.
- **Copy inventory.** Adding a book under a unique ISBN and a 50-copy shelf
  cap, stamping a book's status on all its copies, and growing or shrinking
  a book's stock of Active copies.
- **Status cascades and guards.** Author, language, subcategory and category
  status changes are pushed down to books. Publisher and location
  deactivation is refused while books are attached.

The database context is the class `Data.LibraryContext`. It keeps one map
per table, keyed by identity column. The three many-to-many join tables
(AuthorBook, BookLanguage, BookSubCategory) are sets of (owner id, book id)
pairs. The LoanTransactions and Penalties tables are append-only sequences.
Identity columns are `next…` counters. `LibraryContext.Valid()` states the
foreign keys the services navigate and that every key is below its counter.

Each service operation is a module-level method that takes the context as a
parameter `db: LibraryContext`. It returns the source's `ServiceResult`
envelope with the source's exact messages. Its `modifies` clause names only
the fields (tables) of `db` the operation writes. Every failure leaves the
context unchanged.

Each loop in the source is a `while` loop over the rows still to visit,
with its invariants. The loops are the book restamps of the cascades, the
copy restamps of `SetBookStatusAsync`, and the deactivation of copies in
`UpdateBookCopiesAsync`. Each loop is proved against a map-comprehension
specification (`Cascade.Restamp`, `BookService.RestampCopies`,
`CategoryService.RestampSubCategories`). Lemmas then state what those
specifications promise.

Time is an integer number of seconds (`Common.Instant`).
`Common.WholeDays` is `TimeSpan.Days`: whole days, truncated toward zero.
The current time and the current year are parameters.

## Model

| member | source | states |
|---|---|---|
| Common.WholeDays | Models/Entities/Penalty.cs:49 | The whole days of a span: for a non-negative span, the largest d with d days fitting in it; for a negative span, truncated toward zero. |
| Common.WholeDaysOfDaysPlusRemainder | Services/impl/PenaltyService.cs:84 | k whole days plus less than a day counts as k days (k + 1 for a negative k with a remainder), so lateness under a day counts 0. |
| Penalties.Tier | Models/Entities/Penalty.cs:52-71 | The tier is None for at most 10 days, BookTenDays for 11-30, BookTwoMonths for 31-60, BookOneYear for 61-365, and BookLimitless above 365; each stated as an if-and-only-if. |
| Penalties.TierIsNeverLibraryTier | Models/Entities/Penalty.cs:52-71 | No overdue count is classified into a Library* tier. |
| Penalties.TierMonotone | Models/Entities/Penalty.cs:52-71 | More overdue days never give a lower tier, by enum ordinal. |
| Penalties.TierExamples | Models/Entities/Penalty.cs:52-71 | 11 days give BookTenDays and a fee of 5.50, 45 days give BookTwoMonths and 22.50, 400 days give BookLimitless and 200.00, and 6 days give None. |
| Penalties.Penalty.constructor | Models/Entities/Penalty.cs:8-42 | A penalty holds the given fee, dates, days, member and total, with no type yet. |
| Penalties.Penalty.CalculatePenaltyDetails | Models/Entities/Penalty.cs:45-73 | Without an end date no field changes. With one, overdue days are the whole days from start to end, the total is fee times days, the type is the tier of those days, and nothing else changes. |
| PenaltyService.CalculatePenalties | Services/impl/PenaltyService.cs:80-112 | Always succeeds. A return date not after the due date appends nothing. A later one appends exactly one fresh penalty from the due date to the return date, for the member, at 50 hundredths a day, with the derived days, total and tier. |
| PenaltyService.AssessmentBounds | Services/impl/PenaltyService.cs:82-96 | An assessed penalty has at least 0 overdue days, 0 days and 0 fee when under a day late, a total of 50 per day, and type None for at most 10 days (the row is still written). |
| LoanService.ReserveKeepsLoansMatchingCopies | Services/impl/LoanService.cs:161-175 | Inserting a Borrowed loan on an Active copy and marking that copy Borrowed keeps every Borrowed copy with exactly one open loan and every other copy with none. |
| LoanService.ReleaseKeepsLoansMatchingCopies | Services/impl/LoanService.cs:277-295 | Closing an open loan and setting its copy Active keeps the same correspondence. |
| LoanService.ReserveCopy | Services/impl/LoanService.cs:161-177 | Inserts the loan under the next id and marks only that copy Borrowed; the loan/copy correspondence is preserved. |
| LoanService.AddLoan | Services/impl/LoanService.cs:131-180 | Fails in the order member, then employee, then copy missing or not Active, changing nothing. Succeeds exactly when all three pass. A success adds one Borrowed loan for a member with that IdNumber, due howManyDays after now, marks that copy Borrowed, writes no transaction, and preserves the loan/copy correspondence. |
| LoanService.UpdateLoan | Services/impl/LoanService.cs:187-214 | Fails on an unknown loan, and on Returned for a loan that is not Borrowed, changing nothing. A non-null status that differs from the current one overwrites it and appends one transaction with that status and the acting employee. A null or equal status changes nothing. Copies are never touched. |
| LoanService.ReleaseCopy | Services/impl/LoanService.cs:277-295 | Stamps the return date and Returned, appends one transaction under the loan's own employee, sets the copy Active, and preserves the correspondence. |
| LoanService.ReturnBook | Services/impl/LoanService.cs:261-304 | Fails, changing nothing, on a missing loan or one that is not Borrowed, so a second return fails. A success makes the ReleaseCopy changes and assesses the penalty from the loan's due date and member. It preserves the correspondence. |
| Cascade.LinkedBooksInStore | Data/LibraryAPIContext.cs:62-99 | When every join row references a stored book, every book an owner links to is a stored book. |
| Cascade.LinkedBooksOfUnion | Services/impl/BookService.cs:519-553 | The books an owner reaches through the union of two sets of join rows are those it reaches through each. |
| Cascade.RestampEffect | Services/impl/AuthorService.cs:225-234 | A restamp keeps the set of books, gives every target the status, and leaves every other book, and every other field, unchanged. |
| Cascade.RestampIdempotent | Services/impl/LanguageService.cs:153-162 | Repeating a restamp with the same status changes nothing more. |
| Cascade.RestampUnion | Services/impl/CategoryService.cs:154-171 | Two restamps with one status equal one restamp of the union of their targets. |
| Cascade.StampBooks | Services/impl/AuthorService.cs:230-234 | The loop over the links ends with the books restamped on exactly the targets. |
| AuthorService.AddAuthor | Services/impl/AuthorService.cs:113-145 | Refuses a death year after the current year, then a duplicate (name, birth year, death year), changing nothing. Otherwise inserts one Active author. Success is stated as an if-and-only-if. |
| AuthorService.UpdateAuthor | Services/impl/AuthorService.cs:153-185 | Refuses an unknown author, a future death year, and any duplicate, changing nothing. Otherwise overwrites the details but not the status. |
| AuthorService.UnchangedResubmissionIsDuplicate | Services/impl/AuthorService.cs:168-176 | An author's own current name and years always count as a duplicate, so an update that keeps them is refused. |
| AuthorService.SetAuthorStatus | Services/impl/AuthorService.cs:212-234 | Fails on an unknown author, changing nothing. Otherwise sets the author's status and the same status, of any value, on exactly the linked books. Copies are never touched. |
| LanguageService.AddLanguage | Services/impl/LanguageService.cs:79-96 | Refuses a name already in use; otherwise inserts one Active language. |
| LanguageService.SetLanguageStatus | Services/impl/LanguageService.cs:142-162 | Fails on an unknown language, changing nothing. Otherwise sets its status and the same status, in either direction, on exactly the linked books. |
| SubCategoryService.SetSubCategoryStatus | Services/impl/SubCategoryService.cs:119-142 | Fails on an unknown subcategory, changing nothing. Otherwise sets its status. For InActive it restamps exactly the linked books; for any other status no book changes. |
| SubCategoryService.SubCategoryCascadeOnlyDeactivates | Services/impl/SubCategoryService.cs:130-141 | Whatever the status requested, every book ends with its old status or InActive. |
| CategoryService.SubCategoriesOfDisjoint | Services/impl/CategoryService.cs:150-152 | The subcategory selections of two different categories never overlap. |
| CategoryService.SubCategoriesOfIgnoresStatus | Services/impl/CategoryService.cs:150-157 | Stamping any status on any subcategories leaves every category's subcategory selection unchanged. |
| CategoryService.CategoryCascadeIdempotent | Services/impl/CategoryService.cs:150-157 | Stamping a category's subcategories with a status and then doing it again, reselecting them, changes nothing more. |
| CategoryService.BooksUnderIsUnionOfLinked | Services/impl/CategoryService.cs:154-164 | A book is under a set of subcategories exactly when one of them links to it: the books the cascade visits are the union of the subcategories' linked books. |
| CategoryService.BooksUnderOneMore | Services/impl/CategoryService.cs:154-171 | The books under one more subcategory are the others' plus its own links. |
| CategoryService.RestampSubCategoriesOneMore | Services/impl/CategoryService.cs:154-157 | Stamping one more subcategory is one more map update. |
| CategoryService.AddCategory | Services/impl/CategoryService.cs:80-96 | Refuses a name already in use; otherwise inserts one Active category. |
| CategoryService.SetCategoryStatus | Services/impl/CategoryService.cs:139-172 | Fails on an unknown category, changing nothing. Otherwise sets the category and exactly its own subcategories to the status. For InActive it also sets every book linked to one of those subcategories; otherwise no book changes. |
| CategoryService.CascadeToSubCategories | Services/impl/CategoryService.cs:154-171 | The outer loop ends with exactly the given subcategories restamped, and, for InActive only, exactly the books under them. |
| CategoryService.StampSubCategoryBooks | Services/impl/CategoryService.cs:159-170 | The inner loop extends the restamped books from those under the done subcategories to those under one more. |
| PublisherService.GetPublisherById | Services/impl/PublisherService.cs:59-95 | Fails with "Publisher not found" on a missing publisher and with "The publisher is not active anymore!" on one that is not Active. Otherwise returns the stored publisher. Success is stated as an if-and-only-if. |
| PublisherService.SetPublisherStatus | Services/impl/PublisherService.cs:164-196 | Fails on an unknown publisher. Fails on InActive while any book, of any status, references it. Both leave everything unchanged. Otherwise stores the status. No book is ever written. |
| LocationService.GetLocationById | Services/impl/LocationService.cs:47-67 | Succeeds exactly for a location that exists and is Active, returning it; anything else is "Location not found". |
| LocationService.SetLocationStatus | Services/impl/LocationService.cs:133-172 | Fails on an unknown location. Fails on InActive while an Active book is placed there. Both leave everything unchanged. Otherwise stores the status name, so activation and deactivation of a shelf with no Active books always succeed. No book is ever written. |
| BookService.CopiesOfDisjoint | Services/impl/BookService.cs:294-296 | The copies selected for two different books never overlap. |
| BookService.CopiesOfCovers | Services/impl/BookService.cs:294-296 | Every copy is among the copies selected for its own book, so the selections over all books partition the copies. |
| BookService.ActiveCopiesAtIsUnionOverShelf | Services/impl/BookService.cs:164-167 | A copy is counted by the shelf cap exactly when it is an Active copy of some stored book placed at the location. |
| BookService.NewCopies | Services/impl/BookService.cs:193-197 | The n copies inserted take exactly the n consecutive ids from start, and each is an Active copy of the book. |
| BookService.CopiesAfterInsert | Services/impl/BookService.cs:193-199 | After inserting fresh copies of b, b's copies and Active copies are the old ones plus the new ones, and other books' copies are unchanged. |
| BookService.NewCopiesCounts | Services/impl/BookService.cs:468-476 | Inserting n fresh copies raises both the total and the Active count of the book by n, and leaves other books' copies alone. |
| BookService.DeactivationCounts | Services/impl/BookService.cs:479-491 | Deactivating k Active copies keeps the total and lowers the Active count by k. Every other copy, Borrowed, InActive and Banned ones included, is untouched. |
| BookService.ActiveAfterDeactivation | Services/impl/BookService.cs:479-491 | After deactivating some Active copies, the Active copies are exactly the others. |
| BookService.RestampCopiesOneMore | Services/impl/BookService.cs:298-302 | Stamping one more copy is one more map update. |
| BookService.StampingBorrowedCopyBreaksLoanMatch | Services/impl/BookService.cs:283-302 | Stamping any status other than Borrowed on a copy that is out on loan breaks the loan/copy correspondence. |
| BookService.AddBookLinksEachOwner | Services/impl/BookService.cs:519-553 | After a new book's join rows are added, each owner links to its old books plus the new book when it was among the requested owners, and to nothing else new. |
| BookService.ActiveCopiesAtAfterInsert | Services/impl/BookService.cs:162-201 | After inserting a book placed at loc with fresh Active copies, the Active copies at loc are the old ones plus the new ones. |
| BookService.AddBookShelfCount | Services/impl/BookService.cs:162-201 | A successful add raises its location's Active copy count by exactly the copy count. |
| BookService.ShelfCanEndAboveCapacity | Services/impl/BookService.cs:162-172 | A shelf at 49 Active copies passes the cap check, and after a book with 10 copies it holds 59. |
| BookService.InsertBook | Services/impl/BookService.cs:175-191 | Inserts the book under the next id, with one join row per author, language and subcategory. |
| BookService.InsertCopies | Services/impl/BookService.cs:193-199 | Inserts the fresh copies under the next ids and advances the counter by n. |
| BookService.AddBook | Services/impl/BookService.cs:154-204 | Refuses a duplicate ISBN, then a location already holding 50 or more Active copies, changing nothing. Succeeds exactly when both pass. A success inserts one Active book with its links and exactly copyCount Active copies of it. |
| BookService.StampCopies | Services/impl/BookService.cs:298-302 | The loop ends with exactly the target copies restamped. |
| BookService.SetBookStatus | Services/impl/BookService.cs:283-302 | Fails on an unknown book, changing nothing. Otherwise sets the book and every one of its copies, Borrowed ones included, to the status; other copies are unchanged. |
| BookService.SetBookStatusEffect | Services/impl/BookService.cs:283-302 | After the stamp every copy of the book carries the status, every other copy is unchanged, and stamping again changes nothing. |
| BookService.DeactivateCopies | Services/impl/BookService.cs:479-491 | The loop marks exactly k distinct Active copies of the book InActive and nothing else. |
| BookService.UpdateBookCopies | Services/impl/BookService.cs:446-510 | Fails on an unknown book, and when the Active count plus the change is negative, changing nothing. A positive change inserts exactly change Active copies. A negative change marks exactly -change Active copies InActive. Zero changes nothing. Every success moves the total by the positive part of the change and the Active count by the change. |
| BookService.CountsOverRun | Services/impl/BookService.cs:468-491 | Across any run of successful adjustments, the total copy count is the initial one plus the positive changes, and the Active count is the initial one plus all the changes. |
| Data.LibraryContext.constructor | Data/LibraryAPIContext.cs:62-99 | An empty store satisfies the integrity invariant. |

## Left out

- Concurrency is not modelled. The `DbUpdateConcurrencyException` re-check branches are left out, and so is the check-then-act race between reading a copy and saving the loan in `AddLoanAsync`. The model is sequential.
- Persistence failures are not modelled. A failed save returns "Error occurred while calculating penalties." in `CalculatePenaltiesAsync`, and database foreign-key violations raise exceptions. In particular, unknown author, language or subcategory ids in `AddBookAsync`, and duplicate ids within one request, are not modelled; the request ids are sets.
- BookService.AddBook: `CopyCount` is a `nat`. In the source a negative count throws from `Enumerable.Range` after the book has already been saved.
- BookService.UpdateBookCopies: a change of -32768, the smallest `short`, is excluded. `Math.Abs` throws `OverflowException` for it, and the model does not represent that exception.
- BookService.UpdateBookCopies: which Active copies `Take(|change|)` picks depends on database order. The model picks any of them, and its contract quantifies over the chosen set.
- LoanService.AddLoan: `FirstOrDefault` over members with the same IdNumber picks one; the model picks any member with that IdNumber.
- LoanService.ReturnBook: the source reads the wall clock twice, once for the loan and once for the penalty. The model uses one `now`.
- LoanService.UpdateLoan, BookService.SetBookStatus: these can break the loan/copy correspondence. UpdateLoan can close a loan without releasing its copy, and SetBookStatus can stamp over a Borrowed copy (`StampingBorrowedCopyBreaksLoanMatch`). So the correspondence is proved only across AddLoan and ReturnBook.
- Penalties.Penalty.CalculatePenaltyDetails: the penalty type is kept as the enum value rather than its name string, and the fee is kept in hundredths rather than as a decimal.
- Time is whole seconds rather than .NET ticks. `TimeSpan.Days` of a span is the same for both.
- Integer widths are not modelled for ids and `CountDay` (`short`), apart from the `short` range of `change` in `UpdateBookCopiesAsync` (see above for its smallest value).
- Models/Enums/Status.cs is not part of this model. The five status names come from their uses in the services.
- Response DTOs and projections are returned as the stored entity. Read-only list queries, image and rating operations, member, employee and authentication services, and plain CRUD updates are not part of the model.
- The penalty row for a return at most 10 days late is written with type None, as the code does.
- String comparisons that run in the database (the ISBN check of `AddBookAsync`, the name checks of the author, language and category services, and the `"Active"` status filters of LINQ queries) follow SQL Server semantics. These ignore trailing spaces and, under the default collation, letter case. The model compares strings exactly (`IsbnTaken`, `LanguageNameTaken`, `CategoryNameTaken`, `AuthorExists`, `ActiveCopiesOf`, `ActiveCopiesAt`). The comparisons made in memory are ordinal in the source as well, so they match the model.
