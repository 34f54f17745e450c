/** Locations: an active-only lookup and a deactivation guard over the Active
    books on the shelf; no cascade. */
module LocationService {
  import opened Common
  import opened Entities
  import opened Data

  /** Some Active book is placed at the location. */
  predicate HasActiveBooksAt(books: map<BookId, Book>, id: LocationId)
  {
    exists b :: b in books && books[b].locationId == Some(id) && books[b].status == Active.Name()
  }

  /** GetLocationByIdAsync: a missing location and one that is not Active are
      both reported as not found; otherwise the stored location is returned. */
  method GetLocationById(db: LibraryContext, id: LocationId) returns (r: ServiceResult<Location>)
    ensures r.Success? <==> id in db.locations && db.locations[id].status == Active.Name()
    ensures r.Failure? ==> r == Failure("Location not found")
    ensures r.Success? ==> r.data == db.locations[id]
  {
    if id !in db.locations || db.locations[id].status != Active.Name() {
      return Failure("Location not found");
    }
    r := Success(db.locations[id]);
  }

  /** SetLocationStatusAsync: refuses an unknown location, and a request for
      InActive while an Active book is placed there; otherwise stores the
      status's name. No book is ever modified. */
  method SetLocationStatus(db: LibraryContext, id: LocationId, status: Status) returns (r: ServiceResult<bool>)
    modifies db`locations
    ensures id !in old(db.locations) ==> r == Failure("Location not found") && unchanged(db)
    ensures id in old(db.locations) && status == InActive && HasActiveBooksAt(db.books, id) ==>
      r == Failure("Location cannot be set to not active as there are books in this location.") && unchanged(db)
    ensures r.Success? <==> id in old(db.locations) && !(status == InActive && HasActiveBooksAt(db.books, id))
    ensures r.Success? ==>
      && r == Success(true)
      && db.locations == old(db.locations)[id := old(db.locations)[id].(status := status.Name())]
  {
    if id !in db.locations {
      return Failure("Location not found");
    }
    if status == InActive {
      var booksInLocation := HasActiveBooksAt(db.books, id);
      if booksInLocation {
        return Failure("Location cannot be set to not active as there are books in this location.");
      }
    }
    db.locations := db.locations[id := db.locations[id].(status := status.Name())];
    r := Success(true);
  }
}
