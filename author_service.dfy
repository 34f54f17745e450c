/** Authors: validation on add and update, and the author -> book status cascade. */
module AuthorService {
  import opened Common
  import opened Entities
  import opened Data
  import opened Cascade

  /** Some author already has this full name, birth year and death year
      (absent years compare equal to absent years). */
  predicate AuthorExists(authors: map<AuthorId, Author>, fullName: string, birthYear: Option<int>, deathYear: Option<int>)
  {
    exists a :: a in authors && authors[a].fullName == fullName
      && authors[a].birthYear == birthYear && authors[a].deathYear == deathYear
  }

  predicate DeathYearInFuture(deathYear: Option<int>, currentYear: int)
  {
    deathYear.Some? && deathYear.value > currentYear
  }

  /** AddAuthorAsync: refuses a death year after the current year, then a
      duplicate (name, birth year, death year); otherwise inserts an Active author. */
  method AddAuthor(db: LibraryContext, fullName: string, biography: Option<string>, birthYear: Option<int>,
                   deathYear: Option<int>, languageId: LanguageId, currentYear: int)
    returns (r: ServiceResult<string>)
    requires db.Valid()
    modifies db`authors, db`nextAuthorId
    ensures db.Valid()
    ensures DeathYearInFuture(deathYear, currentYear) ==>
      r == Failure("The author's death year cannot be in the future!") && unchanged(db)
    ensures !DeathYearInFuture(deathYear, currentYear) && AuthorExists(old(db.authors), fullName, birthYear, deathYear) ==>
      r == Failure("The Author already exists!") && unchanged(db)
    ensures r.Success? <==>
      !DeathYearInFuture(deathYear, currentYear) && !AuthorExists(old(db.authors), fullName, birthYear, deathYear)
    ensures r.Success? ==>
      && r == Success("Author successfully created!")
      && db.nextAuthorId == old(db.nextAuthorId) + 1
      && db.authors == old(db.authors)[old(db.nextAuthorId) :=
           Author(fullName, biography, birthYear, deathYear, Active.Name(), languageId)]
  {
    if deathYear.Some? && deathYear.value > currentYear {
      return Failure("The author's death year cannot be in the future!");
    }
    var exist := AuthorExists(db.authors, fullName, birthYear, deathYear);
    if exist {
      return Failure("The Author already exists!");
    }
    db.authors := db.authors[db.nextAuthorId := Author(fullName, biography, birthYear, deathYear, Active.Name(), languageId)];
    db.nextAuthorId := db.nextAuthorId + 1;
    r := Success("Author successfully created!");
  }

  /** UpdateAuthorAsync: refuses an unknown author, a future death year, and any
      (name, birth year, death year) already present, the author's own
      included; otherwise overwrites the author's details. */
  method UpdateAuthor(db: LibraryContext, id: AuthorId, fullName: string, biography: Option<string>,
                      birthYear: Option<int>, deathYear: Option<int>, languageId: LanguageId, currentYear: int)
    returns (r: ServiceResult<bool>)
    requires db.Valid()
    modifies db`authors
    ensures db.Valid()
    ensures id !in old(db.authors) ==> r == Failure("Author not found") && unchanged(db)
    ensures id in old(db.authors) && DeathYearInFuture(deathYear, currentYear) ==>
      r == Failure("The author's death year cannot be in the future!") && unchanged(db)
    ensures id in old(db.authors) && !DeathYearInFuture(deathYear, currentYear)
            && AuthorExists(old(db.authors), fullName, birthYear, deathYear) ==>
      r == Failure("The Author already exists!") && unchanged(db)
    ensures r.Success? <==>
      id in old(db.authors) && !DeathYearInFuture(deathYear, currentYear)
      && !AuthorExists(old(db.authors), fullName, birthYear, deathYear)
    ensures r.Success? ==>
      && r == Success(true)
      && db.authors == old(db.authors)[id := old(db.authors)[id].(fullName := fullName, biography := biography,
           birthYear := birthYear, deathYear := deathYear, languageId := languageId)]
  {
    if id !in db.authors {
      return Failure("Author not found");
    }
    if deathYear.Some? && deathYear.value > currentYear {
      return Failure("The author's death year cannot be in the future!");
    }
    var exist := AuthorExists(db.authors, fullName, birthYear, deathYear);
    if exist {
      return Failure("The Author already exists!");
    }
    db.authors := db.authors[id := db.authors[id].(fullName := fullName, biography := biography,
      birthYear := birthYear, deathYear := deathYear, languageId := languageId)];
    r := Success(true);
  }

  /** The duplicate check of UpdateAuthorAsync does not exclude the author being
      updated: resubmitting its current name and years is always refused, even
      when only the biography or the language changes. */
  lemma UnchangedResubmissionIsDuplicate(authors: map<AuthorId, Author>, id: AuthorId)
    requires id in authors
    ensures AuthorExists(authors, authors[id].fullName, authors[id].birthYear, authors[id].deathYear)
  {
  }

  /** SetAuthorStatusAsync: sets the author's status and stamps the same status,
      whatever it is, on every book linked to the author. Copies and unlinked
      books are untouched. */
  method SetAuthorStatus(db: LibraryContext, id: AuthorId, status: string) returns (r: ServiceResult<bool>)
    requires db.Valid()
    modifies db`authors, db`books
    ensures db.Valid()
    ensures id !in old(db.authors) ==> r == Failure("Author not found") && unchanged(db)
    ensures id in old(db.authors) ==>
      && r == Success(true)
      && db.authors == old(db.authors)[id := old(db.authors)[id].(status := status)]
      && db.books == Restamp(old(db.books), LinkedBooks(db.authorBooks, id), status)
  {
    if id !in db.authors {
      return Failure("Author not found");
    }
    db.authors := db.authors[id := db.authors[id].(status := status)];
    StampBooks(db, LinkedBooks(db.authorBooks, id), status);
    r := Success(true);
  }
}
