/** The loan ledger's rules, stated on values. An `Issue` is one loan of one
    book to one customer. The `issues` table is a map from id to record. Every
    service operation is a function from the table (and the request) to its
    outcome, so the ledger's invariants can be proved once for all of them. */
module Issues {
  import opened Outcomes
  import opened Calendar
  import opened Sequences
  import opened Sorting
  import opened Library

  /** The values the `status` column takes. */
  datatype Status = Issued | Overdue | ReturnedOnTime | ReturnedLate

  function StatusName(s: Status): string
  {
    match s
    case Issued => "issued"
    case Overdue => "overdue"
    case ReturnedOnTime => "returned_on_time"
    case ReturnedLate => "returned_late"
  }

  /** Different statuses are stored as different texts. */
  lemma StatusNameInjective(a: Status, b: Status)
    ensures StatusName(a) == StatusName(b) ==> a == b
  {
    if a != b {
      assert |StatusName(a)| != |StatusName(b)|;
    }
  }

  predicate IsReturned(s: Status)
  {
    s == ReturnedOnTime || s == ReturnedLate
  }

  /** A row of the `issues` table. */
  datatype Issue = Issue(
    id: int,
    bookId: int,
    customerId: int,
    librarianId: int,
    dateOfIssue: Date,
    returnUntil: Date,
    returnDate: Option<Date>,
    status: Status,
    notes: Option<string>)

  /** `IssueCreate`: the body of a loan request. */
  datatype IssueCreate = IssueCreate(
    bookId: int, customerId: int, dateOfIssue: Date, returnUntil: Date, notes: Option<string>)

  /** `IssueUpdate` after `model_dump(exclude_unset=True)`: `None` is a field the
      request did not send; `Some(None)` sends an explicit null. */
  datatype IssueUpdate = IssueUpdate(returnUntil: Option<Option<Date>>, notes: Option<Option<string>>)

  /** `IssueReturn`: the body of a return request. */
  datatype IssueReturn = IssueReturn(returnDate: Date, notes: Option<string>)

  type Table = map<int, Issue>

  /** The book has not come back yet (`return_date IS NULL`). */
  predicate Active(i: Issue)
  {
    i.returnDate.None?
  }

  predicate WellKeyed(t: Table)
  {
    forall k :: k in t ==> t[k].id == k
  }

  /** A table keyed by id holds each loan once. */
  lemma WellKeyedRowsDistinct(t: Table)
    requires WellKeyed(t)
    ensures Distinct(Rows(t))
  {
    forall a, b | a in t && b in t && a != b ensures t[a] != t[b] {
      assert t[a].id == a && t[b].id == b;
    }
    RowsDistinct(t);
  }

  /** No book is on two open loans. */
  predicate OneActivePerBook(t: Table)
  {
    forall a, b :: a in t && b in t && Active(t[a]) && Active(t[b]) && t[a].bookId == t[b].bookId ==> a == b
  }

  /** A loan carries a returned status exactly when it has a return date. */
  predicate StatusAgrees(t: Table)
  {
    forall k :: k in t ==> (Active(t[k]) <==> !IsReturned(t[k].status))
  }

  predicate Consistent(t: Table)
  {
    WellKeyed(t) && OneActivePerBook(t) && StatusAgrees(t)
  }

  // ---------------------------------------------------------------------------
  // Queries
  // ---------------------------------------------------------------------------

  /** `get_active_issues`: every row without a return date, whatever its status. */
  function ActiveIssues(t: Table): seq<Issue>
  {
    Filter(Rows(t), Active)
  }

  /** The listing holds a row of the table exactly when that row is open,
      whatever its status. */
  lemma ActiveIssuesComplete(t: Table)
    ensures forall k :: k in t ==> (t[k] in ActiveIssues(t) <==> Active(t[k]))
  {
    assert forall k :: k in t ==> t[k] in t.Values;
  }

  /** Every listed open loan is a row of the table. */
  lemma ActiveIssuesSound(t: Table, i: Issue)
    requires i in ActiveIssues(t)
    ensures Active(i) && exists k :: k in t && t[k] == i
  {
    assert i in t.Values;
  }

  /** The id of the first loan of `bookId` in `active`, if any. */
  function FirstActiveFor(active: seq<Issue>, bookId: int): (r: Option<int>)
    ensures r.None? <==> forall i :: i in active ==> i.bookId != bookId
    ensures r.Some? ==> exists i :: i in active && i.bookId == bookId && i.id == r.value
  {
    if active == [] then None
    else if active[0].bookId == bookId then Some(active[0].id)
    else
      var r := FirstActiveFor(active[1..], bookId);
      assert forall i :: i in active ==> i == active[0] || i in active[1..];
      r
  }

  /** The scan of `create_issue` stops at the first open loan of the book. */
  lemma FirstActiveAt(active: seq<Issue>, bookId: int, i: int)
    requires 0 <= i < |active| && active[i].bookId == bookId
    requires forall j :: 0 <= j < i ==> active[j].bookId != bookId
    ensures FirstActiveFor(active, bookId) == Some(active[i].id)
    decreases i
  {
    if i > 0 {
      FirstActiveAt(active[1..], bookId, i - 1);
    }
  }

  /** The `status_filter` of `get_issues_by_customer`. */
  datatype StatusFilter = NoFilter | Current | History

  predicate OfCustomer(customerId: int, f: StatusFilter, i: Issue)
  {
    i.customerId == customerId &&
    match f
    case NoFilter => true
    case Current => Active(i)
    case History => !Active(i)
  }

  function IssueDateKey(i: Issue): Key
  {
    DateKey(i.dateOfIssue)
  }

  /** `get_issues_by_customer`: the customer's loans, newest issue date first. */
  function IssuesByCustomer(t: Table, customerId: int, f: StatusFilter): seq<Issue>
  {
    SortBy(Filter(Rows(t), i => OfCustomer(customerId, f, i)), IssueDateKey, true)
  }

  /** Exactly the customer's loans that pass the filter, each once, by issue date descending. */
  lemma IssuesByCustomerSpec(t: Table, customerId: int, f: StatusFilter)
    requires WellKeyed(t)
    ensures var r := IssuesByCustomer(t, customerId, f);
      (forall i :: i in r <==> i in t.Values && OfCustomer(customerId, f, i)) &&
      Distinct(r) &&
      (forall i, j :: 0 <= i < j < |r| ==> r[i].dateOfIssue >= r[j].dateOfIssue)
  {
    var p := (i: Issue) => OfCustomer(customerId, f, i);
    var xs := Filter(Rows(t), p);
    var r := IssuesByCustomer(t, customerId, f);
    WellKeyedRowsDistinct(t);
    FilterDistinct(Rows(t), p);
    FilterRowsMembers(t, p);
    SortDistinct(xs, IssueDateKey, true);
    forall x ensures x in r <==> x in t.Values && OfCustomer(customerId, f, x) {
      assert p(x) == OfCustomer(customerId, f, x);
    }
    forall i, j | 0 <= i < j < |r| ensures r[i].dateOfIssue >= r[j].dateOfIssue {
      DateKeyOrder(r[j].dateOfIssue, r[i].dateOfIssue);
    }
  }

  /** The reading of one loan with the titles and names it refers to (`IssueWithDetails`). */
  datatype IssueWithDetails = IssueWithDetails(
    id: int,
    bookTitle: string,
    customerName: string,
    librarianName: string,
    dateOfIssue: Date,
    returnUntil: Date,
    returnDate: Option<Date>,
    status: Status,
    notes: Option<string>)

  /** The username of a librarian (a row of `users`), or the empty text for an id without one. */
  function UsernameOf(librarians: map<int, string>, id: int): string
  {
    if id in librarians then librarians[id] else ""
  }

  function WithDetails(i: Issue, books: Catalog, customers: map<int, Customer>, librarians: map<int, string>): IssueWithDetails
  {
    IssueWithDetails(i.id, TitleOf(books, i.bookId), NameOf(customers, i.customerId),
      UsernameOf(librarians, i.librarianId),
      i.dateOfIssue, i.returnUntil, i.returnDate, i.status, i.notes)
  }

  /** `d` shows loan `i`: its own columns, the title of its book, the name of
      its customer and the username of its librarian. */
  predicate Shows(d: IssueWithDetails, i: Issue, books: Catalog, customers: map<int, Customer>, librarians: map<int, string>)
  {
    d.id == i.id &&
    d.bookTitle == TitleOf(books, i.bookId) &&
    d.customerName == NameOf(customers, i.customerId) &&
    d.librarianName == UsernameOf(librarians, i.librarianId) &&
    d.dateOfIssue == i.dateOfIssue &&
    d.returnUntil == i.returnUntil &&
    d.returnDate == i.returnDate &&
    d.status == i.status &&
    d.notes == i.notes
  }

  function AllWithDetails(xs: seq<Issue>, books: Catalog, customers: map<int, Customer>, librarians: map<int, string>): (r: seq<IssueWithDetails>)
    ensures |r| == |xs|
    ensures forall k :: 0 <= k < |xs| ==> Shows(r[k], xs[k], books, customers, librarians)
  {
    seq(|xs|, k requires 0 <= k < |xs| => WithDetails(xs[k], books, customers, librarians))
  }

  // ---------------------------------------------------------------------------
  // Operations
  // ---------------------------------------------------------------------------

  /** `create_issue`: the new record, or the error the checks raise. */
  function CreateOutcome(t: Table, books: Catalog, customers: map<int, Customer>, req: IssueCreate,
                         librarianId: int, newId: int): Result<Issue, Error>
  {
    if req.bookId !in books then Err(BookNotFound)
    else if req.customerId !in customers then Err(CustomerNotFound)
    else match FirstActiveFor(ActiveIssues(t), req.bookId)
      case Some(n) => Err(BookAlreadyIssued(n))
      case None => Ok(Issue(newId, req.bookId, req.customerId, librarianId, req.dateOfIssue,
                            req.returnUntil, None, Issued, req.notes))
  }

  /** `return_book` applied to an open loan. */
  function Returned(i: Issue, req: IssueReturn): Issue
  {
    i.(status := if req.returnDate > i.returnUntil then ReturnedLate else ReturnedOnTime,
       returnDate := Some(req.returnDate),
       notes := if Truthy(req.notes) then req.notes else i.notes)
  }

  /** `return_book`: the updated record, or the error. */
  function ReturnOutcome(t: Table, id: int, req: IssueReturn): Result<Issue, Error>
  {
    if id !in t then Err(IssueNotFound)
    else if t[id].returnDate.Some? then Err(BookAlreadyReturned)
    else Ok(Returned(t[id], req))
  }

  /** The `setattr` loop of `update_issue`: the fields the request sent. */
  function Updated(i: Issue, u: IssueUpdate): Issue
  {
    i.(returnUntil := if u.returnUntil.Some? && u.returnUntil.value.Some? then u.returnUntil.value.value else i.returnUntil,
       notes := if u.notes.Some? then u.notes.value else i.notes)
  }

  /** `update_issue`: the updated record, or the error. `return_until` is a
      NOT NULL column, so the commit refuses an explicit null for it. */
  function UpdateOutcome(t: Table, id: int, u: IssueUpdate): Result<Issue, Error>
  {
    if id !in t then Err(IssueNotFound)
    else if u.returnUntil == Some(None) then Err(NotNullViolation)
    else Ok(Updated(t[id], u))
  }

  /** The sweep touches open loans past their due date that are not yet overdue. */
  predicate SweepCandidate(i: Issue, today: Date)
  {
    Active(i) && i.returnUntil < today && i.status != Overdue
  }

  function SweepRecord(i: Issue, today: Date): Issue
  {
    if SweepCandidate(i, today) then i.(status := Overdue) else i
  }

  /** `check_overdue_issues`: the table after the sweep. */
  function Swept(t: Table, today: Date): (r: Table)
    ensures r.Keys == t.Keys
  {
    map k | k in t :: SweepRecord(t[k], today)
  }

  /** One request to the ledger. */
  datatype Request =
    | CreateReq(create: IssueCreate, librarianId: int, newId: int)
    | ReturnReq(id: int, ret: IssueReturn)
    | UpdateReq(id: int, update: IssueUpdate)
    | DeleteReq(id: int)
    | SweepReq(today: Date)

  /** The table after a request, or the error that leaves it unchanged. */
  function Step(t: Table, books: Catalog, customers: map<int, Customer>, rq: Request): Result<Table, Error>
  {
    match rq
    case CreateReq(c, lib, n) =>
      (match CreateOutcome(t, books, customers, c, lib, n)
       case Ok(i) => Ok(t[n := i])
       case Err(e) => Err(e))
    case ReturnReq(id, r) =>
      (match ReturnOutcome(t, id, r)
       case Ok(i) => Ok(t[id := i])
       case Err(e) => Err(e))
    case UpdateReq(id, u) =>
      (match UpdateOutcome(t, id, u)
       case Ok(i) => Ok(t[id := i])
       case Err(e) => Err(e))
    case DeleteReq(id) =>
      if id !in t then Err(IssueNotFound) else Ok(t - {id})
    case SweepReq(today) => Ok(Swept(t, today))
  }

  // ---------------------------------------------------------------------------
  // Properties of creation
  // ---------------------------------------------------------------------------

  /** The book is checked first, then the customer. */
  lemma CreateChecksOrder(t: Table, books: Catalog, customers: map<int, Customer>, req: IssueCreate, lib: int, n: int)
    ensures req.bookId !in books ==> CreateOutcome(t, books, customers, req, lib, n) == Err(BookNotFound)
    ensures req.bookId in books && req.customerId !in customers ==>
      CreateOutcome(t, books, customers, req, lib, n) == Err(CustomerNotFound)
  {
  }

  /** With both present, creation is refused exactly when the book is on an open
      loan, and the error names such a loan. */
  lemma CreateBlockedByActive(t: Table, books: Catalog, customers: map<int, Customer>, req: IssueCreate, lib: int, n: int)
    requires WellKeyed(t) && req.bookId in books && req.customerId in customers
    ensures CreateOutcome(t, books, customers, req, lib, n).Err? <==>
      exists k :: k in t && Active(t[k]) && t[k].bookId == req.bookId
    ensures CreateOutcome(t, books, customers, req, lib, n).Err? ==>
      var e := CreateOutcome(t, books, customers, req, lib, n).error;
      e.BookAlreadyIssued? && e.issueId in t && Active(t[e.issueId]) && t[e.issueId].bookId == req.bookId
  {
    var act := ActiveIssues(t);
    match FirstActiveFor(act, req.bookId)
    case Some(m) =>
      var i :| i in act && i.bookId == req.bookId && i.id == m;
      ActiveIssuesSound(t, i);
      var k :| k in t && t[k] == i;
    case None =>
      ActiveIssuesComplete(t);
      forall k | k in t && Active(t[k]) ensures t[k].bookId != req.bookId {
        assert t[k] in act;
      }
  }

  /** A successful creation is an open, `issued` loan copying the request. */
  lemma CreateRecord(t: Table, books: Catalog, customers: map<int, Customer>, req: IssueCreate, lib: int, n: int)
    requires CreateOutcome(t, books, customers, req, lib, n).Ok?
    ensures var i := CreateOutcome(t, books, customers, req, lib, n).value;
      i.id == n && i.status == Issued && i.returnDate == None && i.bookId == req.bookId &&
      i.customerId == req.customerId && i.librarianId == lib && i.dateOfIssue == req.dateOfIssue &&
      i.returnUntil == req.returnUntil && i.notes == req.notes
  {
  }

  // ---------------------------------------------------------------------------
  // Properties of return and update
  // ---------------------------------------------------------------------------

  /** A return is late exactly when it comes after the due date; the due date
      itself is on time. Notes change only when non-empty ones are sent. */
  lemma ReturnRules(t: Table, id: int, req: IssueReturn)
    ensures ReturnOutcome(t, id, req).Err? <==> id !in t || t[id].returnDate.Some?
    ensures id !in t ==> ReturnOutcome(t, id, req) == Err(IssueNotFound)
    ensures ReturnOutcome(t, id, req).Ok? ==>
      var i := ReturnOutcome(t, id, req).value;
      (i.status == ReturnedLate <==> req.returnDate > t[id].returnUntil) &&
      (i.status == ReturnedOnTime <==> req.returnDate <= t[id].returnUntil) &&
      i.returnDate == Some(req.returnDate) &&
      (Truthy(req.notes) ==> i.notes == req.notes) &&
      (!Truthy(req.notes) ==> i.notes == t[id].notes) &&
      i == t[id].(status := i.status, returnDate := i.returnDate, notes := i.notes)
  {
  }

  /** Returning is one-shot: a second return of the same loan is refused. */
  lemma ReturnOnce(t: Table, id: int, r1: IssueReturn, r2: IssueReturn)
    requires ReturnOutcome(t, id, r1).Ok?
    ensures ReturnOutcome(t[id := ReturnOutcome(t, id, r1).value], id, r2) == Err(BookAlreadyReturned)
  {
  }

  /** An update writes the sent fields only, in any state of the loan; an
      explicit null due date is refused by the database. */
  lemma UpdateRules(t: Table, id: int, u: IssueUpdate)
    ensures UpdateOutcome(t, id, u) == Err(IssueNotFound) <==> id !in t
    ensures UpdateOutcome(t, id, u) == Err(NotNullViolation) <==> id in t && u.returnUntil == Some(None)
    ensures UpdateOutcome(t, id, u).Err? ==> UpdateOutcome(t, id, u).error in {IssueNotFound, NotNullViolation}
    ensures UpdateOutcome(t, id, u).Ok? ==>
      var i := UpdateOutcome(t, id, u).value;
      u.returnUntil != Some(None) &&
      i.id == t[id].id && i.bookId == t[id].bookId && i.customerId == t[id].customerId &&
      i.librarianId == t[id].librarianId && i.dateOfIssue == t[id].dateOfIssue &&
      i.returnDate == t[id].returnDate && i.status == t[id].status &&
      i.returnUntil == (if u.returnUntil.Some? then u.returnUntil.value.value else t[id].returnUntil) &&
      i.notes == (if u.notes.Some? then u.notes.value else t[id].notes)
  {
  }

  /** Deleting removes exactly the named loan; an unknown id is refused. */
  lemma DeleteRules(t: Table, books: Catalog, customers: map<int, Customer>, id: int)
    ensures Step(t, books, customers, DeleteReq(id)).Err? <==> id !in t
    ensures Step(t, books, customers, DeleteReq(id)).Ok? ==>
      var u := Step(t, books, customers, DeleteReq(id)).value;
      u.Keys == t.Keys - {id} && forall k :: k in u ==> u[k] == t[k]
  {
  }

  // ---------------------------------------------------------------------------
  // Properties of the sweep
  // ---------------------------------------------------------------------------

  /** After the sweep every open loan past its due date is overdue. */
  lemma SweepMarksOverdue(t: Table, today: Date)
    ensures forall k :: k in t && Active(t[k]) && t[k].returnUntil < today ==> Swept(t, today)[k].status == Overdue
  {
  }

  /** The sweep leaves returned loans and loans not yet due alone, and changes
      nothing but the status of the loans it touches. */
  lemma SweepFrame(t: Table, today: Date)
    ensures forall k :: k in t && (!Active(t[k]) || t[k].returnUntil >= today) ==> Swept(t, today)[k] == t[k]
    ensures forall k :: k in t ==> Swept(t, today)[k] == t[k].(status := Swept(t, today)[k].status)
  {
  }

  /** Sweeping twice on the same day is sweeping once. */
  lemma SweepIdempotent(t: Table, today: Date)
    ensures Swept(Swept(t, today), today) == Swept(t, today)
  {
    var s := Swept(t, today);
    forall k | k in s ensures SweepRecord(s[k], today) == s[k] {
    }
    assert Swept(s, today) == s;
  }

  // ---------------------------------------------------------------------------
  // The ledger as a state machine
  // ---------------------------------------------------------------------------

  /** Status moves only forward: issued to overdue or returned, overdue to
      returned; a returned status never changes again. */
  predicate Allowed(a: Status, b: Status)
  {
    a == b || (a == Issued && b != Issued) || (a == Overdue && IsReturned(b))
  }

  /** Every request keeps the ledger consistent: ids match keys, a book is on
      at most one open loan, and the status agrees with the return date. */
  lemma StepPreservesConsistent(t: Table, books: Catalog, customers: map<int, Customer>, rq: Request)
    requires Consistent(t)
    requires rq.CreateReq? ==> rq.newId !in t
    ensures Step(t, books, customers, rq).Ok? ==> Consistent(Step(t, books, customers, rq).value)
  {
    match rq
    case CreateReq(c, lib, n) =>
      if CreateOutcome(t, books, customers, c, lib, n).Ok? {
        CreateBlockedByActive(t, books, customers, c, lib, n);
      }
    case ReturnReq(id, r) =>
    case UpdateReq(id, u) =>
    case DeleteReq(id) =>
    case SweepReq(today) =>
  }

  /** No request moves a status backwards or takes a return date away, so
      returned loans are final. */
  lemma StepStatusTransitions(t: Table, books: Catalog, customers: map<int, Customer>, rq: Request)
    requires StatusAgrees(t)
    requires rq.CreateReq? ==> rq.newId !in t
    ensures Step(t, books, customers, rq).Ok? ==>
      var u := Step(t, books, customers, rq).value;
      forall k :: k in t && k in u ==>
        Allowed(t[k].status, u[k].status) &&
        (t[k].returnDate.Some? ==> u[k].returnDate == t[k].returnDate) &&
        (IsReturned(t[k].status) ==> u[k].status == t[k].status)
  {
  }

  /** A refused request changes nothing. */
  lemma StepErrorsLeaveTable(t: Table, books: Catalog, customers: map<int, Customer>, rq: Request)
    ensures Step(t, books, customers, rq).Err? ==>
      match rq
      case CreateReq(c, lib, n) => CreateOutcome(t, books, customers, c, lib, n).Err?
      case ReturnReq(id, r) => ReturnOutcome(t, id, r).Err?
      case UpdateReq(id, u) => id !in t || u.returnUntil == Some(None)
      case DeleteReq(id) => id !in t
      case SweepReq(_) => false
  {
  }
}
