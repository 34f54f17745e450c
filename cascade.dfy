/** Restamping book statuses through a join table: the loop the author,
    language, subcategory and category services each run over the join rows
    of one owner. */
module Cascade {
  import opened Common
  import opened Entities
  import opened Data

  /** The books an owner is linked to through a join table of (owner, book) rows. */
  function LinkedBooks(links: set<(int, BookId)>, owner: int): (r: set<BookId>)
  {
    set link | link in links && link.0 == owner :: link.1
  }

  /** When every join row points at a stored book, so do an owner's links. */
  lemma LinkedBooksInStore(links: set<(int, BookId)>, books: map<BookId, Book>, owner: int)
    requires forall link :: link in links ==> link.1 in books
    ensures LinkedBooks(links, owner) <= books.Keys
  {
  }

  /** The books an owner reaches through two sets of rows are those it reaches
      through each. */
  lemma LinkedBooksOfUnion(a: set<(int, BookId)>, b: set<(int, BookId)>, owner: int)
    ensures LinkedBooks(a + b, owner) == LinkedBooks(a, owner) + LinkedBooks(b, owner)
  {
  }

  /** books with the status of every book in ids replaced. */
  function Restamp(books: map<BookId, Book>, ids: set<BookId>, status: string): map<BookId, Book>
  {
    map b | b in books :: if b in ids then books[b].(status := status) else books[b]
  }

  /** After a restamp, the targeted books carry the status, every other book
      is as it was, and no field other than the status changed. */
  lemma RestampEffect(books: map<BookId, Book>, ids: set<BookId>, status: string)
    ensures Restamp(books, ids, status).Keys == books.Keys
    ensures forall b :: b in books && b in ids ==> Restamp(books, ids, status)[b].status == status
    ensures forall b :: b in books && b !in ids ==> Restamp(books, ids, status)[b] == books[b]
    ensures forall b :: b in books ==> Restamp(books, ids, status)[b] == books[b].(status := Restamp(books, ids, status)[b].status)
  {
  }

  /** Restamping twice with the same status is restamping once. */
  lemma RestampIdempotent(books: map<BookId, Book>, ids: set<BookId>, status: string)
    ensures Restamp(Restamp(books, ids, status), ids, status) == Restamp(books, ids, status)
  {
  }

  /** Two restamps with one status are one restamp of the union. */
  lemma RestampUnion(books: map<BookId, Book>, a: set<BookId>, b: set<BookId>, status: string)
    ensures Restamp(Restamp(books, a, status), b, status) == Restamp(books, a + b, status)
  {
  }

  /** Sets every book in targets to status, one book at a time. */
  method StampBooks(db: LibraryContext, targets: set<BookId>, status: string)
    requires db.Valid()
    requires targets <= db.books.Keys
    modifies db`books
    ensures db.Valid()
    ensures db.books == Restamp(old(db.books), targets, status)
  {
    var todo := targets;
    while todo != {}
      invariant todo <= targets
      invariant db.books.Keys == old(db.books).Keys
      invariant forall b :: b in db.books ==>
        db.books[b] == if b in targets && b !in todo then old(db.books)[b].(status := status) else old(db.books)[b]
      decreases todo
    {
      var id := Pick(todo);
      db.books := db.books[id := db.books[id].(status := status)];
      todo := todo - {id};
    }
    ghost var want := Restamp(old(db.books), targets, status);
    assert db.books.Keys == want.Keys;
    assert forall b :: b in want ==> db.books[b] == want[b];
  }
}
