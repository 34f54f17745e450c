/** Publishers: an active-only lookup and a deactivation guard; no cascade. */
module PublisherService {
  import opened Common
  import opened Entities
  import opened Data

  /** Some book, whatever its status, references the publisher. */
  predicate PublisherHasBooks(books: map<BookId, Book>, id: PublisherId)
  {
    exists b :: b in books && books[b].publisherId == Some(id)
  }

  /** GetPublisherByIdAsync: a missing publisher and a publisher that is not
      Active are both refused, with different messages; otherwise the stored
      publisher is returned. */
  method GetPublisherById(db: LibraryContext, id: PublisherId) returns (r: ServiceResult<Publisher>)
    ensures id !in db.publishers ==> r == Failure("Publisher not found")
    ensures id in db.publishers && db.publishers[id].status != Active.Name() ==>
      r == Failure("The publisher is not active anymore!")
    ensures r.Success? <==> id in db.publishers && db.publishers[id].status == Active.Name()
    ensures r.Success? ==> r.data == db.publishers[id]
  {
    if id !in db.publishers {
      return Failure("Publisher not found");
    }
    var publisher := db.publishers[id];
    if publisher.status != Active.Name() {
      return Failure("The publisher is not active anymore!");
    }
    r := Success(publisher);
  }

  /** SetPublisherStatusAsync: refuses an unknown publisher, and a request for
      InActive while any book references it; otherwise stores the status. No
      book is ever modified. */
  method SetPublisherStatus(db: LibraryContext, id: PublisherId, status: string) returns (r: ServiceResult<bool>)
    modifies db`publishers
    ensures id !in old(db.publishers) ==> r == Failure("Publisher not found") && unchanged(db)
    ensures id in old(db.publishers) && status == InActive.Name() && PublisherHasBooks(db.books, id) ==>
      r == Failure("Cannot deactivate publisher with active books.") && unchanged(db)
    ensures r.Success? <==>
      id in old(db.publishers) && !(status == InActive.Name() && PublisherHasBooks(db.books, id))
    ensures r.Success? ==>
      && r == Success(true)
      && db.publishers == old(db.publishers)[id := old(db.publishers)[id].(status := status)]
  {
    if id !in db.publishers {
      return Failure("Publisher not found");
    }
    if status == InActive.Name() && PublisherHasBooks(db.books, id) {
      return Failure("Cannot deactivate publisher with active books.");
    }
    db.publishers := db.publishers[id := db.publishers[id].(status := status)];
    r := Success(true);
  }
}
