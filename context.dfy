/** The persistence context the services share: one table per entity, keyed by
    its identity column, the three many-to-many join tables as sets of
    (owner id, book id) pairs, and the append-only audit and penalty logs. */
module Data {
  import opened Common
  import opened Entities
  import Penalties

  class LibraryContext {
    var books: map<BookId, Book>
    var copies: map<CopyId, BookCopy>
    var loans: map<LoanId, Loan>
    var loanTransactions: seq<LoanTransaction>
    var penalties: seq<Penalties.Penalty>

    /** Members keyed by member id, each with the IdNumber of its user account. */
    var members: map<MemberId, string>
    var employees: set<EmployeeId>

    var authors: map<AuthorId, Author>
    var languages: map<LanguageId, Language>
    var categories: map<CategoryId, Category>
    var subCategories: map<SubCategoryId, SubCategory>
    var publishers: map<PublisherId, Publisher>
    var locations: map<LocationId, Location>

    var authorBooks: set<(AuthorId, BookId)>
    var bookLanguages: set<(LanguageId, BookId)>
    var bookSubCategories: set<(SubCategoryId, BookId)>

    /** The next values of the identity columns the services insert into. */
    var nextBookId: int
    var nextCopyId: int
    var nextLoanId: int
    var nextAuthorId: int
    var nextLanguageId: int
    var nextCategoryId: int

    /** Referential integrity of the relations the services navigate, and
        identity counters above every key in use. */
    ghost predicate Valid()
      reads this
    {
      && (forall c :: c in copies ==> copies[c].bookId in books)
      && (forall l :: l in loans ==> loans[l].copyId in copies)
      && (forall link :: link in authorBooks ==> link.1 in books)
      && (forall link :: link in bookLanguages ==> link.1 in books)
      && (forall link :: link in bookSubCategories ==> link.1 in books)
      && (forall b :: b in books ==> b < nextBookId)
      && (forall c :: c in copies ==> c < nextCopyId)
      && (forall l :: l in loans ==> l < nextLoanId)
      && (forall a :: a in authors ==> a < nextAuthorId)
      && (forall l :: l in languages ==> l < nextLanguageId)
      && (forall c :: c in categories ==> c < nextCategoryId)
    }

    /** An empty store. */
    constructor ()
      ensures Valid()
      ensures books == map[] && copies == map[] && loans == map[]
      ensures loanTransactions == [] && penalties == []
    {
      books, copies, loans := map[], map[], map[];
      loanTransactions, penalties := [], [];
      members, employees := map[], {};
      authors, languages, categories := map[], map[], map[];
      subCategories, publishers, locations := map[], map[], map[];
      authorBooks, bookLanguages, bookSubCategories := {}, {}, {};
      nextBookId, nextCopyId, nextLoanId := 1, 1, 1;
      nextAuthorId, nextLanguageId, nextCategoryId := 1, 1, 1;
    }
  }
}
