/** Categories: unique names on add, and the category -> subcategory -> book
    cascade, which reaches the books only when deactivating. */
module CategoryService {
  import opened Common
  import opened Entities
  import opened Data
  import opened Cascade

  /** The subcategories whose CategoryId is cat. */
  function SubCategoriesOf(subCategories: map<SubCategoryId, SubCategory>, cat: CategoryId): (r: set<SubCategoryId>)
  {
    set s | s in subCategories && subCategories[s].categoryId == Some(cat)
  }

  /** The books linked to at least one of the given subcategories. */
  function BooksUnder(links: set<(SubCategoryId, BookId)>, subs: set<SubCategoryId>): (r: set<BookId>)
  {
    set link | link in links && link.0 in subs :: link.1
  }

  /** A book is under the subcategories exactly when some one of them links to
      it: BooksUnder is the union of the subcategories' LinkedBooks. */
  lemma BooksUnderIsUnionOfLinked(links: set<(SubCategoryId, BookId)>, subs: set<SubCategoryId>, b: BookId)
    ensures b in BooksUnder(links, subs) <==> exists s :: s in subs && b in LinkedBooks(links, s)
  {
    if b in BooksUnder(links, subs) {
      var link :| link in links && link.0 in subs && link.1 == b;
      var (s, b') := link;
      assert s in subs && b in LinkedBooks(links, s);
    }
    if exists s :: s in subs && b in LinkedBooks(links, s) {
      var s :| s in subs && b in LinkedBooks(links, s);
      assert (s, b) in links;
    }
  }

  /** No subcategory belongs to two categories. */
  lemma SubCategoriesOfDisjoint(subCategories: map<SubCategoryId, SubCategory>, c1: CategoryId, c2: CategoryId)
    requires c1 != c2
    ensures SubCategoriesOf(subCategories, c1) !! SubCategoriesOf(subCategories, c2)
  {
  }

  /** Stamping statuses does not move a subcategory between categories, so the
      cascade selects the same subcategories when it runs again. */
  lemma SubCategoriesOfIgnoresStatus(subCategories: map<SubCategoryId, SubCategory>, ids: set<SubCategoryId>,
                                     status: string, cat: CategoryId)
    ensures SubCategoriesOf(RestampSubCategories(subCategories, ids, status), cat) == SubCategoriesOf(subCategories, cat)
  {
  }

  /** Setting a category's subcategories to a status twice is setting them once. */
  lemma {:induction false} CategoryCascadeIdempotent(subCategories: map<SubCategoryId, SubCategory>, cat: CategoryId, status: string)
    ensures var once := RestampSubCategories(subCategories, SubCategoriesOf(subCategories, cat), status);
      RestampSubCategories(once, SubCategoriesOf(once, cat), status) == once
  {
    SubCategoriesOfIgnoresStatus(subCategories, SubCategoriesOf(subCategories, cat), status, cat);
  }

  /** The books under one more subcategory are those under the others plus its own. */
  lemma BooksUnderOneMore(links: set<(SubCategoryId, BookId)>, subs: set<SubCategoryId>, s: SubCategoryId)
    ensures BooksUnder(links, subs + {s}) == BooksUnder(links, subs) + LinkedBooks(links, s)
  {
  }

  /** subCategories with the status of every subcategory in ids replaced. */
  function RestampSubCategories(subCategories: map<SubCategoryId, SubCategory>, ids: set<SubCategoryId>, status: string)
    : map<SubCategoryId, SubCategory>
  {
    map s | s in subCategories :: if s in ids then subCategories[s].(status := status) else subCategories[s]
  }

  /** Restamping one more subcategory is one more map update. */
  lemma RestampSubCategoriesOneMore(subCategories: map<SubCategoryId, SubCategory>, done: set<SubCategoryId>,
                                    s: SubCategoryId, status: string)
    requires s in subCategories
    ensures RestampSubCategories(subCategories, done + {s}, status)
         == RestampSubCategories(subCategories, done, status)[s := subCategories[s].(status := status)]
  {
  }

  predicate CategoryNameTaken(categories: map<CategoryId, Category>, name: string)
  {
    exists c :: c in categories && categories[c].name == name
  }

  /** AddCategoryAsync: refuses a name already in use, otherwise inserts an
      Active category. */
  method AddCategory(db: LibraryContext, name: string) returns (r: ServiceResult<string>)
    requires db.Valid()
    modifies db`categories, db`nextCategoryId
    ensures db.Valid()
    ensures CategoryNameTaken(old(db.categories), name) ==>
      r == Failure("The category name already exists!") && unchanged(db)
    ensures !CategoryNameTaken(old(db.categories), name) ==>
      && r == Success("Category successfully created.")
      && db.nextCategoryId == old(db.nextCategoryId) + 1
      && db.categories == old(db.categories)[old(db.nextCategoryId) := Category(name, Active.Name())]
  {
    if CategoryNameTaken(db.categories, name) {
      return Failure("The category name already exists!");
    }
    db.categories := db.categories[db.nextCategoryId := Category(name, Active.Name())];
    db.nextCategoryId := db.nextCategoryId + 1;
    r := Success("Category successfully created.");
  }

  /** SetCategoryStatusAsync: sets the category and each of its subcategories to
      the status; when the status is InActive, also every book linked to one of
      those subcategories. Subcategories of other categories are untouched. */
  method SetCategoryStatus(db: LibraryContext, id: CategoryId, status: Status) returns (r: ServiceResult<bool>)
    requires db.Valid()
    modifies db`categories, db`subCategories, db`books
    ensures db.Valid()
    ensures id !in old(db.categories) ==> r == Failure("Category not found") && unchanged(db)
    ensures id in old(db.categories) ==>
      var subs := SubCategoriesOf(old(db.subCategories), id);
      && r == Success(true)
      && db.categories == old(db.categories)[id := old(db.categories)[id].(status := status.Name())]
      && db.subCategories == RestampSubCategories(old(db.subCategories), subs, status.Name())
      && db.books == if status == InActive
                     then Restamp(old(db.books), BooksUnder(db.bookSubCategories, subs), status.Name())
                     else old(db.books)
  {
    if id !in db.categories {
      return Failure("Category not found");
    }
    db.categories := db.categories[id := db.categories[id].(status := status.Name())];
    var subs := SubCategoriesOf(db.subCategories, id);
    CascadeToSubCategories(db, subs, status);
    r := Success(true);
  }

  /** The loop of SetCategoryStatusAsync over the category's subcategories:
      each gets the status, and when it is InActive so does each of its books. */
  method CascadeToSubCategories(db: LibraryContext, subs: set<SubCategoryId>, status: Status)
    requires db.Valid()
    requires subs <= db.subCategories.Keys
    modifies db`subCategories, db`books
    ensures db.Valid()
    ensures db.subCategories == RestampSubCategories(old(db.subCategories), subs, status.Name())
    ensures db.books == if status == InActive
                        then Restamp(old(db.books), BooksUnder(db.bookSubCategories, subs), status.Name())
                        else old(db.books)
  {
    var todo := subs;
    while todo != {}
      invariant todo <= subs
      invariant db.Valid()
      invariant db.subCategories == RestampSubCategories(old(db.subCategories), subs - todo, status.Name())
      invariant db.books == if status == InActive
                            then Restamp(old(db.books), BooksUnder(db.bookSubCategories, subs - todo), status.Name())
                            else old(db.books)
      decreases todo
    {
      var sc := Pick(todo);
      ghost var done := subs - todo;
      assert subs - (todo - {sc}) == done + {sc};
      RestampSubCategoriesOneMore(old(db.subCategories), done, sc, status.Name());
      db.subCategories := db.subCategories[sc := db.subCategories[sc].(status := status.Name())];
      if status == InActive {
        StampSubCategoryBooks(db, sc, status.Name(), old(db.books), done);
      }
      todo := todo - {sc};
    }
    assert subs - todo == subs;
  }

  /** The inner loop of SetCategoryStatusAsync: stamps the books of one more
      subcategory, so the books under done + {sc} carry the status. */
  method StampSubCategoryBooks(db: LibraryContext, sc: SubCategoryId, status: string,
                               ghost base: map<BookId, Book>, ghost done: set<SubCategoryId>)
    requires db.Valid()
    requires db.books == Restamp(base, BooksUnder(db.bookSubCategories, done), status)
    modifies db`books
    ensures db.Valid()
    ensures db.books == Restamp(base, BooksUnder(db.bookSubCategories, done + {sc}), status)
  {
    RestampUnion(base, BooksUnder(db.bookSubCategories, done), LinkedBooks(db.bookSubCategories, sc), status);
    BooksUnderOneMore(db.bookSubCategories, done, sc);
    StampBooks(db, LinkedBooks(db.bookSubCategories, sc), status);
  }
}
