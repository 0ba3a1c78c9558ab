/** Records the core reads but does not own (books and their authors), the
    readers of the loan ledger, and the HTTP errors its services raise. */
module Library {
  import opened Outcomes
  import opened Text
  import opened Calendar

  /** An author as listed with a book (`AuthorShort`). */
  datatype AuthorShort = AuthorShort(id: int, name: string)

  /** A row of the `books` table, as far as the core reads it. */
  datatype Book = Book(id: int, title: string, subtitle: Option<string>, authors: seq<AuthorShort>)

  /** The catalogue: books by id. A book exists when its id is a key. */
  type Catalog = map<int, Book>

  /** A row of the ledger's `customers` table (the readers who borrow books). */
  datatype Customer = Customer(
    id: int,
    name: string,
    address: Option<string>,
    city: Option<string>,
    zipCode: Option<string>,
    email: string,
    phone: Option<string>,
    registrationDate: Date)

  /** Every book is stored under its own id. */
  predicate CatalogKeyed(books: Catalog)
  {
    forall k :: k in books ==> books[k].id == k
  }

  /** The title of a book, or the empty text for an id without a book. */
  function TitleOf(books: Catalog, id: int): string
  {
    if id in books then books[id].title else ""
  }

  /** The name of a customer, or the empty text for an id without a customer. */
  function NameOf(customers: map<int, Customer>, id: int): string
  {
    if id in customers then customers[id].name else ""
  }

  /** Python truthiness of an optional text: present and not empty. */
  predicate Truthy(s: Option<string>)
  {
    s.Some? && s.value != ""
  }

  /** The `HTTPException`s raised by the core's services. */
  datatype Error =
    | BookNotFound
    | CustomerNotFound
    | IssueNotFound
    | BookAlreadyIssued(issueId: int)
    | BookAlreadyReturned
    | EmailAlreadyExists
    | ShowcaseBookNotFound(bookId: int)
    | UniqueViolation
    | NotNullViolation

  /** The database refuses the write at commit (a unique index, or a NOT NULL
      column set to NULL). The services do not catch it, so it answers 500. */
  predicate IsIntegrityError(e: Error)
  {
    e.UniqueViolation? || e.NotNullViolation?
  }

  /** The HTTP status code of an error. */
  function StatusCode(e: Error): (code: int)
    ensures code == 404 || code == 400 || code == 500
  {
    match e
    case BookNotFound => 404
    case CustomerNotFound => 404
    case IssueNotFound => 404
    case ShowcaseBookNotFound(_) => 404
    case BookAlreadyIssued(_) => 400
    case BookAlreadyReturned => 400
    case EmailAlreadyExists => 400
    case UniqueViolation => 500
    case NotNullViolation => 500
  }

  predicate IsNotFound(e: Error)
  {
    e.BookNotFound? || e.CustomerNotFound? || e.IssueNotFound? || e.ShowcaseBookNotFound?
  }

  const AlreadyIssuedPrefix := "Book is already issued to another customer (Issue ID: "
  const ShowcasePrefix := "Book with id "

  /** The `detail` text of an error. */
  function Detail(e: Error): string
  {
    match e
    case BookNotFound => "Book not found"
    case CustomerNotFound => "Customer not found"
    case IssueNotFound => "Issue not found"
    case BookAlreadyIssued(n) => AlreadyIssuedPrefix + IntToString(n) + ")"
    case BookAlreadyReturned => "Book already returned"
    case EmailAlreadyExists => "Customer with this email already exists"
    case ShowcaseBookNotFound(n) => ShowcasePrefix + IntToString(n) + " not found"
    case UniqueViolation => "Internal Server Error"
    case NotNullViolation => "Internal Server Error"
  }

  /** Missing rows answer 404, requests the services refuse 400, and a write the
      database refuses 500. */
  lemma StatusCodeClasses(e: Error)
    ensures StatusCode(e) == 404 <==> IsNotFound(e)
    ensures StatusCode(e) == 400 <==> !IsNotFound(e) && !IsIntegrityError(e)
    ensures StatusCode(e) == 500 <==> IsIntegrityError(e)
  {
  }

  /** The conflict message names the blocking issue: its id can be read back. */
  lemma AlreadyIssuedNamesIssue(n: int)
    ensures var d := Detail(BookAlreadyIssued(n));
      |d| > |AlreadyIssuedPrefix| && d[..|AlreadyIssuedPrefix|] == AlreadyIssuedPrefix &&
      ParseInt(d[|AlreadyIssuedPrefix|..|d| - 1]) == n
  {
    var d := Detail(BookAlreadyIssued(n));
    assert d[|AlreadyIssuedPrefix|..|d| - 1] == IntToString(n);
    IntToStringRoundTrip(n);
  }

  /** The showcase error names the missing book: its id can be read back. */
  lemma ShowcaseMissingNamesBook(n: int)
    ensures var d := Detail(ShowcaseBookNotFound(n));
      |d| > |ShowcasePrefix| + 10 && d[..|ShowcasePrefix|] == ShowcasePrefix &&
      ParseInt(d[|ShowcasePrefix|..|d| - 10]) == n
  {
    var d := Detail(ShowcaseBookNotFound(n));
    assert d[|ShowcasePrefix|..|d| - 10] == IntToString(n);
    IntToStringRoundTrip(n);
  }
}
