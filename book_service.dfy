/** Copy inventory: adding a book with its copies under a unique ISBN and a
    shelf cap, stamping a book's status on all its copies, and growing or
    shrinking a book's stock of Active copies. */
module BookService {
  import opened Common
  import opened Entities
  import opened Data
  import LoanService
  import Cascade

  // ---------------------------------------------------------------------
  // Copies of a book

  /** The copies owned by book b. */
  function CopiesOf(copies: map<CopyId, BookCopy>, b: BookId): (r: set<CopyId>)
  {
    set c | c in copies && copies[c].bookId == b
  }

  /** The Active copies owned by book b. */
  function ActiveCopiesOf(copies: map<CopyId, BookCopy>, b: BookId): (r: set<CopyId>)
  {
    set c | c in copies && copies[c].bookId == b && copies[c].status == Active.Name()
  }

  /** The Active copies, of any book, whose book is placed at location loc. */
  function ActiveCopiesAt(books: map<BookId, Book>, copies: map<CopyId, BookCopy>, loc: LocationId): (r: set<CopyId>)
  {
    set c | c in copies && copies[c].status == Active.Name()
              && copies[c].bookId in books && books[copies[c].bookId].locationId == Some(loc)
  }

  /** The n fresh Active copies of book b that an insert numbers from start on. */
  function NewCopies(start: CopyId, n: nat, b: BookId): (m: map<CopyId, BookCopy>)
    ensures forall c :: c in m <==> start <= c < start + n
    ensures forall c :: c in m ==> m[c] == BookCopy(b, Active.Name())
    ensures |m| == n
    decreases n
  {
    if n == 0 then map[] else NewCopies(start, n - 1, b)[start + n - 1 := BookCopy(b, Active.Name())]
  }

  /** The copies of distinct books are disjoint. */
  lemma CopiesOfDisjoint(copies: map<CopyId, BookCopy>, b1: BookId, b2: BookId)
    requires b1 != b2
    ensures CopiesOf(copies, b1) !! CopiesOf(copies, b2)
  {
  }

  /** Every copy is among the copies of its own book, so CopiesOf over the
      books partitions the copies. */
  lemma CopiesOfCovers(copies: map<CopyId, BookCopy>, c: CopyId)
    requires c in copies
    ensures c in CopiesOf(copies, copies[c].bookId)
  {
  }

  /** The copies the shelf cap counts are the union, over the books placed at
      the location, of each book's Active copies. */
  lemma ActiveCopiesAtIsUnionOverShelf(books: map<BookId, Book>, copies: map<CopyId, BookCopy>, loc: LocationId, c: CopyId)
    ensures c in ActiveCopiesAt(books, copies, loc) <==>
      exists b :: b in books && books[b].locationId == Some(loc) && c in ActiveCopiesOf(copies, b)
  {
    if c in ActiveCopiesAt(books, copies, loc) {
      var b := copies[c].bookId;
      assert b in books && books[b].locationId == Some(loc) && c in ActiveCopiesOf(copies, b);
    }
  }

  /** copies with the status of every copy in ids replaced. */
  function RestampCopies(copies: map<CopyId, BookCopy>, ids: set<CopyId>, status: string): map<CopyId, BookCopy>
  {
    map c | c in copies :: if c in ids then copies[c].(status := status) else copies[c]
  }

  /** The copies of b after inserting added are its old copies plus added's. */
  lemma CopiesAfterInsert(copies: map<CopyId, BookCopy>, added: map<CopyId, BookCopy>, b: BookId)
    requires copies.Keys !! added.Keys
    requires forall c :: c in added ==> added[c] == BookCopy(b, Active.Name())
    ensures CopiesOf(copies + added, b) == CopiesOf(copies, b) + added.Keys
    ensures ActiveCopiesOf(copies + added, b) == ActiveCopiesOf(copies, b) + added.Keys
    ensures forall b' :: b' != b ==> CopiesOf(copies + added, b') == CopiesOf(copies, b')
  {
    forall c | c in CopiesOf(copies + added, b) ensures c in CopiesOf(copies, b) + added.Keys {
      if c !in added { assert (copies + added)[c] == copies[c]; }
    }
    forall c | c in ActiveCopiesOf(copies + added, b) ensures c in ActiveCopiesOf(copies, b) + added.Keys {
      if c !in added { assert (copies + added)[c] == copies[c]; }
    }
    forall c | c in added ensures (copies + added)[c] == BookCopy(b, Active.Name()) {
    }
    forall c | c in copies && c !in added ensures (copies + added)[c] == copies[c] {
    }
  }

  /** Inserting n fresh copies of b above every key in use raises both the
      total and the Active count of b by n, and leaves every other book's
      copies as they were. */
  lemma {:induction false} NewCopiesCounts(copies: map<CopyId, BookCopy>, start: CopyId, n: nat, b: BookId)
    requires forall c :: c in copies ==> c < start
    ensures |CopiesOf(copies + NewCopies(start, n, b), b)| == |CopiesOf(copies, b)| + n
    ensures |ActiveCopiesOf(copies + NewCopies(start, n, b), b)| == |ActiveCopiesOf(copies, b)| + n
    ensures forall b' :: b' != b ==> CopiesOf(copies + NewCopies(start, n, b), b') == CopiesOf(copies, b')
  {
    var added := NewCopies(start, n, b);
    CopiesAfterInsert(copies, added, b);
    assert |added.Keys| == n;
    assert CopiesOf(copies, b) !! added.Keys;
  }

  /** Deactivating a set of Active copies of b keeps b's total, lowers its
      Active count by their number, and leaves every other copy (Borrowed,
      InActive, Banned, or another book's) untouched. */
  lemma {:induction false} DeactivationCounts(copies: map<CopyId, BookCopy>, flipped: set<CopyId>, b: BookId)
    requires flipped <= ActiveCopiesOf(copies, b)
    ensures |CopiesOf(RestampCopies(copies, flipped, InActive.Name()), b)| == |CopiesOf(copies, b)|
    ensures |ActiveCopiesOf(RestampCopies(copies, flipped, InActive.Name()), b)| == |ActiveCopiesOf(copies, b)| - |flipped|
    ensures forall c :: c in copies && c !in flipped ==> RestampCopies(copies, flipped, InActive.Name())[c] == copies[c]
  {
    var after := RestampCopies(copies, flipped, InActive.Name());
    assert CopiesOf(after, b) == CopiesOf(copies, b);
    ActiveAfterDeactivation(copies, flipped, b);
  }

  /** Restamping one more copy is one more map update. */
  lemma RestampCopiesOneMore(copies: map<CopyId, BookCopy>, done: set<CopyId>, c: CopyId, status: string)
    requires c in copies
    ensures RestampCopies(copies, done + {c}, status) == RestampCopies(copies, done, status)[c := copies[c].(status := status)]
  {
  }

  /** Stamping a status on a copy that is Borrowed under an open loan, with any
      other status, leaves that loan open on a copy that is no longer Borrowed. */
  lemma StampingBorrowedCopyBreaksLoanMatch(loans: map<LoanId, Loan>, copies: map<CopyId, BookCopy>,
                                            ids: set<CopyId>, c: CopyId, status: string)
    requires LoanService.LoansMatchCopies(loans, copies)
    requires c in copies && c in ids && copies[c].status == Borrowed.Name()
    requires status != Borrowed.Name()
    ensures !LoanService.LoansMatchCopies(loans, RestampCopies(copies, ids, status))
  {
  }

  // ---------------------------------------------------------------------
  // AddBookAsync

  predicate IsbnTaken(books: map<BookId, Book>, isbn: string)
  {
    exists b :: b in books && books[b].isbn == isbn
  }

  /** The shelf cap: the location already holds 50 or more Active copies. */
  predicate ShelfFull(books: map<BookId, Book>, copies: map<CopyId, BookCopy>, locationId: Option<LocationId>)
  {
    locationId.Some? && |ActiveCopiesAt(books, copies, locationId.value)| >= 50
  }

  /** The join rows linking each owner to book b. */
  function LinksTo(owners: set<int>, b: BookId): (r: set<(int, BookId)>)
  {
    set o | o in owners :: (o, b)
  }

  /** After a new book's join rows are added, each owner reaches its old books
      plus the new one exactly when it was among the requested owners. */
  lemma AddBookLinksEachOwner(links: set<(int, BookId)>, owners: set<int>, b: BookId, owner: int)
    ensures Cascade.LinkedBooks(links + LinksTo(owners, b), owner)
         == Cascade.LinkedBooks(links, owner) + (if owner in owners then {b} else {})
  {
    Cascade.LinkedBooksOfUnion(links, LinksTo(owners, b), owner);
    if owner in owners {
      assert (owner, b) in LinksTo(owners, b);
    }
  }

  /** The Active copies at loc after inserting a book placed there together
      with its fresh copies are the ones before plus the fresh copies. */
  lemma ActiveCopiesAtAfterInsert(books: map<BookId, Book>, copies: map<CopyId, BookCopy>,
                                  id: BookId, book: Book, added: map<CopyId, BookCopy>, loc: LocationId)
    requires id !in books
    requires forall c :: c in copies ==> c !in added && copies[c].bookId in books
    requires forall c :: c in added ==> added[c] == BookCopy(id, Active.Name())
    requires book.locationId == Some(loc)
    ensures ActiveCopiesAt(books[id := book], copies + added, loc) == ActiveCopiesAt(books, copies, loc) + added.Keys
  {
    var before := ActiveCopiesAt(books, copies, loc);
    var after := ActiveCopiesAt(books[id := book], copies + added, loc);
    forall c | c in after ensures c in before + added.Keys {
      if c !in added {
        assert (copies + added)[c] == copies[c];
      }
    }
    forall c | c in before ensures c in after {
      assert (copies + added)[c] == copies[c];
    }
    forall c | c in added ensures c in after {
      assert (copies + added)[c] == BookCopy(id, Active.Name());
    }
  }

  /** Adding a book at a location that passes the cap check raises that
      location's Active copy count by exactly the copies inserted, so the
      shelf ends at up to 49 + copyCount. */
  lemma {:induction false} AddBookShelfCount(books: map<BookId, Book>, copies: map<CopyId, BookCopy>,
                                             id: BookId, book: Book, start: CopyId, n: nat, loc: LocationId)
    requires id !in books
    requires forall c :: c in copies ==> c < start && copies[c].bookId in books
    requires book.locationId == Some(loc)
    ensures |ActiveCopiesAt(books[id := book], copies + NewCopies(start, n, id), loc)|
         == |ActiveCopiesAt(books, copies, loc)| + n
  {
    var added := NewCopies(start, n, id);
    ActiveCopiesAtAfterInsert(books, copies, id, book, added, loc);
    assert ActiveCopiesAt(books, copies, loc) !! added.Keys;
    assert |added.Keys| == n;
  }

  /** The cap does not count the copies being added: a shelf at 49 Active
      copies accepts a book with 10 more and ends at 59. */
  lemma ShelfCanEndAboveCapacity(books: map<BookId, Book>, copies: map<CopyId, BookCopy>,
                                 id: BookId, book: Book, start: CopyId, loc: LocationId)
    requires id !in books
    requires forall c :: c in copies ==> c < start && copies[c].bookId in books
    requires book.locationId == Some(loc)
    requires |ActiveCopiesAt(books, copies, loc)| == 49
    ensures !ShelfFull(books, copies, Some(loc))
    ensures |ActiveCopiesAt(books[id := book], copies + NewCopies(start, 10, id), loc)| == 59
  {
    AddBookShelfCount(books, copies, id, book, start, 10, loc);
  }

  /** Inserts a book under the next identity value, with its join rows. */
  method InsertBook(db: LibraryContext, book: Book,
                    authorIds: set<AuthorId>, languageIds: set<LanguageId>, subCategoryIds: set<SubCategoryId>)
    returns (id: BookId)
    requires db.Valid()
    modifies db`books, db`nextBookId, db`authorBooks, db`bookLanguages, db`bookSubCategories
    ensures db.Valid()
    ensures id == old(db.nextBookId) && id in db.books
    ensures db.books == old(db.books)[id := book]
    ensures db.nextBookId == id + 1
    ensures db.authorBooks == old(db.authorBooks) + LinksTo(authorIds, id)
    ensures db.bookLanguages == old(db.bookLanguages) + LinksTo(languageIds, id)
    ensures db.bookSubCategories == old(db.bookSubCategories) + LinksTo(subCategoryIds, id)
  {
    id := db.nextBookId;
    db.books := db.books[id := book];
    db.authorBooks := db.authorBooks + LinksTo(authorIds, id);
    db.bookLanguages := db.bookLanguages + LinksTo(languageIds, id);
    db.bookSubCategories := db.bookSubCategories + LinksTo(subCategoryIds, id);
    db.nextBookId := id + 1;
  }

  /** Inserts n fresh Active copies of book b under the next identity values. */
  method InsertCopies(db: LibraryContext, b: BookId, n: nat)
    requires db.Valid() && b in db.books
    modifies db`copies, db`nextCopyId
    ensures db.Valid()
    ensures db.copies == old(db.copies) + NewCopies(old(db.nextCopyId), n, b)
    ensures db.nextCopyId == old(db.nextCopyId) + n
  {
    var added := NewCopies(db.nextCopyId, n, b);
    forall c | c in db.copies + added ensures (db.copies + added)[c].bookId in db.books {
      if c in added { assert (db.copies + added)[c] == added[c]; }
    }
    db.copies := db.copies + added;
    db.nextCopyId := db.nextCopyId + n;
  }

  /** AddBookAsync: refuses a duplicate ISBN, then a full shelf; otherwise
      inserts an Active book with its author, language and subcategory links,
      and copyCount Active copies of it. */
  method AddBook(db: LibraryContext, isbn: string, title: string, publisherId: Option<PublisherId>,
                 locationId: Option<LocationId>, copyCount: nat,
                 authorIds: set<AuthorId>, languageIds: set<LanguageId>, subCategoryIds: set<SubCategoryId>)
    returns (r: ServiceResult<string>)
    requires db.Valid()
    modifies db`books, db`copies, db`nextBookId, db`nextCopyId, db`authorBooks, db`bookLanguages, db`bookSubCategories
    ensures db.Valid()
    ensures IsbnTaken(old(db.books), isbn) ==>
      r == Failure("The book with the specified ISBN is already in the database!") && unchanged(db)
    ensures !IsbnTaken(old(db.books), isbn) && ShelfFull(old(db.books), old(db.copies), locationId) ==>
      r == Failure("The shelf already has 50 books. No more books can be added to this shelf.") && unchanged(db)
    ensures r.Success? <==> !IsbnTaken(old(db.books), isbn) && !ShelfFull(old(db.books), old(db.copies), locationId)
    ensures r.Success? ==>
      var id := old(db.nextBookId);
      && r == Success("Book successfully created!")
      && db.books == old(db.books)[id := Book(isbn, title, Active.Name(), publisherId, locationId)]
      && db.nextBookId == id + 1
      && db.copies == old(db.copies) + NewCopies(old(db.nextCopyId), copyCount, id)
      && db.nextCopyId == old(db.nextCopyId) + copyCount
      && db.authorBooks == old(db.authorBooks) + LinksTo(authorIds, id)
      && db.bookLanguages == old(db.bookLanguages) + LinksTo(languageIds, id)
      && db.bookSubCategories == old(db.bookSubCategories) + LinksTo(subCategoryIds, id)
  {
    if IsbnTaken(db.books, isbn) {
      return Failure("The book with the specified ISBN is already in the database!");
    }
    if locationId.Some? {
      var booksInLocation := |ActiveCopiesAt(db.books, db.copies, locationId.value)|;
      if booksInLocation >= 50 {
        return Failure("The shelf already has 50 books. No more books can be added to this shelf.");
      }
    }
    var id := InsertBook(db, Book(isbn, title, Active.Name(), publisherId, locationId), authorIds, languageIds, subCategoryIds);
    InsertCopies(db, id, copyCount);
    r := Success("Book successfully created!");
  }

  // ---------------------------------------------------------------------
  // SetBookStatusAsync

  /** Sets every copy in targets to status, one copy at a time. */
  method StampCopies(db: LibraryContext, targets: set<CopyId>, status: string)
    requires db.Valid()
    requires targets <= db.copies.Keys
    modifies db`copies
    ensures db.Valid()
    ensures db.copies == RestampCopies(old(db.copies), targets, status)
  {
    var todo := targets;
    while todo != {}
      invariant todo <= targets
      invariant db.Valid()
      invariant db.copies == RestampCopies(old(db.copies), targets - todo, status)
      decreases todo
    {
      var c := Pick(todo);
      RestampCopiesOneMore(old(db.copies), targets - todo, c, status);
      assert targets - (todo - {c}) == (targets - todo) + {c};
      db.copies := db.copies[c := db.copies[c].(status := status)];
      todo := todo - {c};
    }
    assert targets - todo == targets;
  }

  /** SetBookStatusAsync: refuses an unknown book; otherwise sets the book and
      every one of its copies, Borrowed ones included, to the status. */
  method SetBookStatus(db: LibraryContext, id: BookId, status: string) returns (r: ServiceResult<bool>)
    requires db.Valid()
    modifies db`books, db`copies
    ensures db.Valid()
    ensures id !in old(db.books) ==> r == Failure("Book not found") && unchanged(db)
    ensures id in old(db.books) ==>
      && r == Success(true)
      && db.books == old(db.books)[id := old(db.books)[id].(status := status)]
      && db.copies == RestampCopies(old(db.copies), CopiesOf(old(db.copies), id), status)
  {
    if id !in db.books {
      return Failure("Book not found");
    }
    db.books := db.books[id := db.books[id].(status := status)];
    StampCopies(db, CopiesOf(db.copies, id), status);
    r := Success(true);
  }

  /** After the stamp every copy of the book carries the status, every other
      copy is as it was, and stamping again changes nothing. */
  lemma SetBookStatusEffect(copies: map<CopyId, BookCopy>, id: BookId, status: string)
    ensures var after := RestampCopies(copies, CopiesOf(copies, id), status);
      && after.Keys == copies.Keys
      && (forall c :: c in copies && copies[c].bookId == id ==> after[c] == copies[c].(status := status))
      && (forall c :: c in copies && copies[c].bookId != id ==> after[c] == copies[c])
      && RestampCopies(after, CopiesOf(after, id), status) == after
  {
  }

  // ---------------------------------------------------------------------
  // UpdateBookCopiesAsync

  /** What a successful adjustment by change does to book b's counts: the
      total rises by the positive part of change, the Active count by change. */
  ghost predicate Adjusted(before: map<CopyId, BookCopy>, after: map<CopyId, BookCopy>, b: BookId, change: int)
  {
    && |CopiesOf(after, b)| == |CopiesOf(before, b)| + (if change > 0 then change else 0)
    && |ActiveCopiesOf(after, b)| == |ActiveCopiesOf(before, b)| + change
  }

  /** Deactivating some of b's Active copies leaves exactly the others Active. */
  lemma ActiveAfterDeactivation(copies: map<CopyId, BookCopy>, flipped: set<CopyId>, b: BookId)
    requires flipped <= ActiveCopiesOf(copies, b)
    ensures ActiveCopiesOf(RestampCopies(copies, flipped, InActive.Name()), b) == ActiveCopiesOf(copies, b) - flipped
    ensures |ActiveCopiesOf(copies, b) - flipped| == |ActiveCopiesOf(copies, b)| - |flipped|
  {
    var after := RestampCopies(copies, flipped, InActive.Name());
    forall c | c in ActiveCopiesOf(after, b) ensures c in ActiveCopiesOf(copies, b) - flipped {
      assert c !in flipped;
    }
  }

  /** Marks k of book b's Active copies InActive, one at a time. */
  method DeactivateCopies(db: LibraryContext, b: BookId, k: nat) returns (ghost flipped: set<CopyId>)
    requires db.Valid()
    requires k <= |ActiveCopiesOf(db.copies, b)|
    modifies db`copies
    ensures db.Valid()
    ensures flipped <= ActiveCopiesOf(old(db.copies), b) && |flipped| == k
    ensures db.copies == RestampCopies(old(db.copies), flipped, InActive.Name())
  {
    flipped := {};
    var remaining := k;
    while remaining > 0
      invariant flipped <= ActiveCopiesOf(old(db.copies), b)
      invariant |flipped| + remaining == k
      invariant db.Valid()
      invariant db.copies == RestampCopies(old(db.copies), flipped, InActive.Name())
    {
      ActiveAfterDeactivation(old(db.copies), flipped, b);
      var c := Pick(ActiveCopiesOf(db.copies, b));
      RestampCopiesOneMore(old(db.copies), flipped, c, InActive.Name());
      db.copies := db.copies[c := db.copies[c].(status := InActive.Name())];
      flipped := flipped + {c};
      remaining := remaining - 1;
    }
  }

  /** UpdateBookCopiesAsync: refuses an unknown book, and a change that would
      take the Active count below zero; otherwise inserts change new Active
      copies, or marks -change Active copies InActive. */
  method UpdateBookCopies(db: LibraryContext, id: BookId, change: int) returns (r: ServiceResult<bool>)
    requires db.Valid()
    requires -0x8000 < change < 0x8000
    modifies db`copies, db`nextCopyId
    ensures db.Valid()
    ensures id !in old(db.books) ==> r == Failure("Book not found") && unchanged(db)
    ensures id in old(db.books) && |ActiveCopiesOf(old(db.copies), id)| + change < 0 ==>
      r == Failure("Not enough copies available") && unchanged(db)
    ensures r.Success? <==> id in old(db.books) && |ActiveCopiesOf(old(db.copies), id)| + change >= 0
    ensures r.Success? ==> r == Success(true) && Adjusted(old(db.copies), db.copies, id, change)
    ensures r.Success? && change > 0 ==>
      && db.copies == old(db.copies) + NewCopies(old(db.nextCopyId), change, id)
      && db.nextCopyId == old(db.nextCopyId) + change
    ensures r.Success? && change == 0 ==> unchanged(db)
    ensures r.Success? && change < 0 ==>
      && db.nextCopyId == old(db.nextCopyId)
      && exists flipped :: flipped <= ActiveCopiesOf(old(db.copies), id) && |flipped| == -change
           && db.copies == RestampCopies(old(db.copies), flipped, InActive.Name())
  {
    if id !in db.books {
      return Failure("Book not found");
    }
    var activeCopiesCount := |ActiveCopiesOf(db.copies, id)|;
    if activeCopiesCount + change < 0 {
      return Failure("Not enough copies available");
    }
    if change > 0 {
      NewCopiesCounts(db.copies, db.nextCopyId, change, id);
      InsertCopies(db, id, change);
    } else if change < 0 {
      ghost var flipped := DeactivateCopies(db, id, -change);
      DeactivationCounts(old(db.copies), flipped, id);
    }
    r := Success(true);
  }

  /** Sum of a run of adjustments, and of their positive parts. */
  function Sum(deltas: seq<int>): int
  {
    if deltas == [] then 0 else Sum(deltas[..|deltas| - 1]) + deltas[|deltas| - 1]
  }

  function SumPositive(deltas: seq<int>): int
  {
    if deltas == [] then 0
    else SumPositive(deltas[..|deltas| - 1]) + (if deltas[|deltas| - 1] > 0 then deltas[|deltas| - 1] else 0)
  }

  /** Across any run of successful adjustments of one book, the total copy
      count is the initial one plus the positive changes, and the Active count
      the initial one plus all changes. */
  lemma {:induction false} CountsOverRun(states: seq<map<CopyId, BookCopy>>, deltas: seq<int>, b: BookId)
    requires |states| == |deltas| + 1
    requires forall i :: 0 <= i < |deltas| ==> Adjusted(states[i], states[i + 1], b, deltas[i])
    ensures |CopiesOf(states[|deltas|], b)| == |CopiesOf(states[0], b)| + SumPositive(deltas)
    ensures |ActiveCopiesOf(states[|deltas|], b)| == |ActiveCopiesOf(states[0], b)| + Sum(deltas)
  {
    if deltas != [] {
      var n := |deltas| - 1;
      CountsOverRun(states[..n + 1], deltas[..n], b);
      assert Adjusted(states[n], states[n + 1], b, deltas[n]);
    }
  }
}
