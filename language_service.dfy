/** Languages: unique names on add, and the language -> book status cascade. */
module LanguageService {
  import opened Common
  import opened Entities
  import opened Data
  import opened Cascade

  predicate LanguageNameTaken(languages: map<LanguageId, Language>, name: string)
  {
    exists l :: l in languages && languages[l].name == name
  }

  /** AddLanguageAsync: refuses a name already in use, otherwise inserts an
      Active language. */
  method AddLanguage(db: LibraryContext, name: string, nationalityId: int) returns (r: ServiceResult<string>)
    requires db.Valid()
    modifies db`languages, db`nextLanguageId
    ensures db.Valid()
    ensures LanguageNameTaken(old(db.languages), name) ==>
      r == Failure("Language with the specified name already exists!") && unchanged(db)
    ensures !LanguageNameTaken(old(db.languages), name) ==>
      && r == Success("Language successfully created!")
      && db.nextLanguageId == old(db.nextLanguageId) + 1
      && db.languages == old(db.languages)[old(db.nextLanguageId) := Language(name, nationalityId, Active.Name())]
  {
    if LanguageNameTaken(db.languages, name) {
      return Failure("Language with the specified name already exists!");
    }
    db.languages := db.languages[db.nextLanguageId := Language(name, nationalityId, Active.Name())];
    db.nextLanguageId := db.nextLanguageId + 1;
    r := Success("Language successfully created!");
  }

  /** SetLanguageStatusAsync: sets the language's status and stamps the same
      status, in either direction, on every book linked to the language. */
  method SetLanguageStatus(db: LibraryContext, id: LanguageId, status: string) returns (r: ServiceResult<bool>)
    requires db.Valid()
    modifies db`languages, db`books
    ensures db.Valid()
    ensures id !in old(db.languages) ==> r == Failure("Language not found") && unchanged(db)
    ensures id in old(db.languages) ==>
      && r == Success(true)
      && db.languages == old(db.languages)[id := old(db.languages)[id].(status := status)]
      && db.books == Restamp(old(db.books), LinkedBooks(db.bookLanguages, id), status)
  {
    if id !in db.languages {
      return Failure("Language not found");
    }
    db.languages := db.languages[id := db.languages[id].(status := status)];
    StampBooks(db, LinkedBooks(db.bookLanguages, id), status);
    r := Success(true);
  }
}
