/** Subcategories: the subcategory -> book cascade, which only ever deactivates. */
module SubCategoryService {
  import opened Common
  import opened Entities
  import opened Data
  import opened Cascade

  /** SetSubCategoryStatusAsync: sets the subcategory's status; only the status
      InActive is pushed down to the linked books. */
  method SetSubCategoryStatus(db: LibraryContext, id: SubCategoryId, status: string) returns (r: ServiceResult<bool>)
    requires db.Valid()
    modifies db`subCategories, db`books
    ensures db.Valid()
    ensures id !in old(db.subCategories) ==> r == Failure("SubCategory not found") && unchanged(db)
    ensures id in old(db.subCategories) ==>
      && r == Success(true)
      && db.subCategories == old(db.subCategories)[id := old(db.subCategories)[id].(status := status)]
      && db.books == if status == InActive.Name()
                     then Restamp(old(db.books), LinkedBooks(db.bookSubCategories, id), status)
                     else old(db.books)
  {
    if id !in db.subCategories {
      return Failure("SubCategory not found");
    }
    db.subCategories := db.subCategories[id := db.subCategories[id].(status := status)];
    if status == InActive.Name() {
      StampBooks(db, LinkedBooks(db.bookSubCategories, id), status);
    }
    r := Success(true);
  }

  /** Whatever the requested status, no linked book ends up with a status other
      than its old one or InActive. */
  lemma SubCategoryCascadeOnlyDeactivates(books: map<BookId, Book>, links: set<(SubCategoryId, BookId)>,
                                          id: SubCategoryId, status: string)
    ensures var books' := if status == InActive.Name() then Restamp(books, LinkedBooks(links, id), status) else books;
      forall b :: b in books ==> books'[b] == books[b] || books'[b] == books[b].(status := InActive.Name())
  {
  }
}
