/** The catalog's document: `backend/schemas/BookSchema.js`. */
module BookSchema {
  import opened Common

  /** A stored book. The copy counts are plain numbers: the schema sets no bounds on them. */
  datatype Book = Book(
    title: string,
    author: string,
    category: string,
    isbn: string,
    description: string,
    availableCopies: int,
    totalCopies: int,
    addedBy: Option<Id>,
    coverImage: Option<string>,
    cloudinaryId: Option<string>,
    price: Option<int>,
    createdAt: Time)

  /** The fields a caller passes to `new BookModel({...})`; `None` means the field is omitted. */
  datatype BookFields = BookFields(
    title: Option<string>,
    author: Option<string>,
    category: Option<string>,
    isbn: Option<string>,
    description: Option<string>,
    availableCopies: Option<int>,
    totalCopies: Option<int>,
    addedBy: Option<Id>,
    coverImage: Option<string>,
    cloudinaryId: Option<string>,
    price: Option<int>,
    createdAt: Option<Time>)

  /** Mongoose's `required` check on a string: present and not empty. */
  predicate RequiredText(s: Option<string>) {
    s.Some? && s.value != ""
  }

  /** Creating and validating a book: title, author, category, isbn and description must be non-empty
      strings and both copy counts present; addedBy, coverImage, cloudinaryId and price are optional;
      createdAt defaults to the creation time. `None` is a validation error. */
  function NewBook(f: BookFields, now: Time): (r: Option<Book>)
    ensures r.Some? <==>
      && RequiredText(f.title) && RequiredText(f.author) && RequiredText(f.category)
      && RequiredText(f.isbn) && RequiredText(f.description)
      && f.availableCopies.Some? && f.totalCopies.Some?
    ensures r.Some? ==> r.value.title == f.title.value && r.value.author == f.author.value
    ensures r.Some? ==> r.value.isbn == f.isbn.value && r.value.category == f.category.value
    ensures r.Some? ==> r.value.description == f.description.value
    ensures r.Some? ==> r.value.availableCopies == f.availableCopies.value && r.value.totalCopies == f.totalCopies.value
    ensures r.Some? ==> r.value.addedBy == f.addedBy && r.value.coverImage == f.coverImage
    ensures r.Some? ==> r.value.cloudinaryId == f.cloudinaryId && r.value.price == f.price
    ensures r.Some? ==> r.value.createdAt == if f.createdAt.Some? then f.createdAt.value else now
  {
    if RequiredText(f.title) && RequiredText(f.author) && RequiredText(f.category)
       && RequiredText(f.isbn) && RequiredText(f.description)
       && f.availableCopies.Some? && f.totalCopies.Some?
    then
      Some(Book(f.title.value, f.author.value, f.category.value, f.isbn.value, f.description.value,
                f.availableCopies.value, f.totalCopies.value, f.addedBy, f.coverImage, f.cloudinaryId,
                f.price, if f.createdAt.Some? then f.createdAt.value else now))
    else None
  }

  /** `books.map(b => b.category)` */
  function CategoriesOf(books: seq<Book>): (cs: seq<string>)
    ensures |cs| == |books|
    ensures forall i :: 0 <= i < |books| ==> cs[i] == books[i].category
  {
    seq(|books|, i requires 0 <= i < |books| => books[i].category)
  }

  /** A category is in the list of categories exactly when some book has it. */
  lemma CategoryListed(books: seq<Book>, c: string)
    ensures c in CategoriesOf(books) <==> exists b :: b in books && b.category == c
  {
    var cats := CategoriesOf(books);
    if c in cats {
      var i :| 0 <= i < |cats| && cats[i] == c;
      assert books[i] in books;
    }
    if b :| b in books && b.category == c {
      var i :| 0 <= i < |books| && books[i] == b;
      assert cats[i] == c;
    }
  }

  /** The unique index on `isbn`: no two stored books share one. */
  ghost predicate IsbnUnique(books: map<Id, Book>) {
    forall a, b :: a in books && b in books && a != b ==> books[a].isbn != books[b].isbn
  }

  /** The schema admits any copy counts, including ones outside `0 <= available <= total`. */
  lemma SchemaAdmitsAnyCounts(available: int, total: int, now: Time)
    ensures var f := BookFields(Some("t"), Some("a"), Some("c"), Some("i"), Some("d"),
                                Some(available), Some(total), None, None, None, None, None);
            NewBook(f, now).Some? && NewBook(f, now).value.availableCopies == available
            && NewBook(f, now).value.totalCopies == total
  {
  }
}
