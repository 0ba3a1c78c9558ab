/** The `issues` table as the services change it: rows are updated in place,
    inserted with the next free id, and deleted. Each method is proved to
    produce the outcome the corresponding rule in `Issues` describes, and to
    keep the ledger consistent. */
module IssueLedger {
  import opened Outcomes
  import opened Calendar
  import opened Sequences
  import opened Library
  import opened Issues

  /** The keys of the loans the sweep selects, in ascending id order. */
  function SweepKeys(t: Table, today: Date): seq<int>
  {
    Filter(Ascending(t.Keys), DueIn(t, today))
  }

  /** The keys the sweep selects are distinct loans it marks. */
  lemma SweepKeysSelected(t: Table, today: Date)
    ensures Distinct(SweepKeys(t, today))
    ensures forall j :: 0 <= j < |SweepKeys(t, today)| ==>
      SweepKeys(t, today)[j] in t && SweepCandidate(t[SweepKeys(t, today)[j]], today)
  {
    var ks := Ascending(t.Keys);
    IncreasingDistinct(ks);
    FilterDistinct(ks, DueIn(t, today));
    DueKeysSelected(t, today);
  }

  /** Every key the sweep selects is a loan it marks. */
  lemma DueKeysSelected(t: Table, today: Date)
    ensures forall j :: 0 <= j < |SweepKeys(t, today)| ==>
      SweepKeys(t, today)[j] in t && SweepCandidate(t[SweepKeys(t, today)[j]], today)
  {
    var r := SweepKeys(t, today);
    forall j | 0 <= j < |r| ensures r[j] in t && SweepCandidate(t[r[j]], today) {
      assert r[j] in r;
      assert DueIn(t, today)(r[j]);
    }
  }

  /** The key of a loan the sweep marks. */
  function DueIn(t: Table, today: Date): int -> bool
  {
    k => k in t && SweepCandidate(t[k], today)
  }

  /** The sweep selects every open loan past its due date that is not yet overdue. */
  lemma SweepKeysComplete(t: Table, today: Date)
    ensures forall k :: k in t && SweepCandidate(t[k], today) ==> k in SweepKeys(t, today)
  {
  }

  /** The scan of `create_issue` over the open loans: the id of the first loan
      of `bookId`, if any. */
  method FindActiveLoan(active: seq<Issue>, bookId: int) returns (r: Option<int>)
    ensures r == FirstActiveFor(active, bookId)
  {
    var i := 0;
    while i < |active|
      invariant 0 <= i <= |active|
      invariant forall j :: 0 <= j < i ==> active[j].bookId != bookId
    {
      if active[i].bookId == bookId {
        FirstActiveAt(active, bookId, i);
        return Some(active[i].id);
      }
      i := i + 1;
    }
    r := None;
  }

  /** The loop of `check_overdue_issues`: each selected loan, one after the
      other, gets the status `overdue`. */
  method MarkOverdue(t: Table, due: seq<int>) returns (u: Table)
    requires Distinct(due) && forall j :: 0 <= j < |due| ==> due[j] in t
    ensures forall k :: k in u <==> k in t
    ensures forall k :: k in t ==> u[k] == (if k in due then t[k].(status := Overdue) else t[k])
  {
    u := t;
    var i := 0;
    while i < |due|
      invariant 0 <= i <= |due|
      invariant forall k :: k in u <==> k in t
      invariant forall j :: 0 <= j < |due| ==> due[j] in u
      invariant forall j :: 0 <= j < i ==> u[due[j]] == t[due[j]].(status := Overdue)
      invariant forall j :: i <= j < |due| ==> u[due[j]] == t[due[j]]
      invariant forall k :: k in u && k !in due ==> u[k] == t[k]
    {
      var k := due[i];
      u := u[k := u[k].(status := Overdue)];
      i := i + 1;
    }
    forall k | k in t && k in due ensures u[k] == t[k].(status := Overdue) {
      var j :| 0 <= j < |due| && due[j] == k;
    }
  }

  /** `check_overdue_issues` on the table: select, then mark. */
  method SweepTable(t: Table, today: Date) returns (u: Table)
    ensures u == Swept(t, today)
  {
    var due := SweepKeys(t, today);
    SweepKeysSelected(t, today);
    u := MarkOverdue(t, due);
    SweepKeysExact(t, today);
    MarkedIsSwept(t, today, due, u);
  }

  /** Marking exactly the loans the sweep should mark is the sweep. */
  lemma MarkedIsSwept(t: Table, today: Date, due: seq<int>, u: Table)
    requires forall k :: k in t ==> (k in due <==> SweepCandidate(t[k], today))
    requires forall k :: k in u <==> k in t
    requires forall k :: k in t ==> u[k] == (if k in due then t[k].(status := Overdue) else t[k])
    ensures u == Swept(t, today)
  {
    var s := Swept(t, today);
    forall k | k in t ensures k in s && u[k] == s[k] {
      assert s[k] == SweepRecord(t[k], today);
    }
    assert u.Keys == s.Keys by {
      assert s.Keys == t.Keys;
      forall k | k in u.Keys ensures k in t.Keys {
        assert k in u;
      }
      forall k | k in t.Keys ensures k in u.Keys {
        assert k in t;
      }
    }
    SameEntries(u, s);
  }

  /** Two maps with the same keys and the same value under each key are equal. */
  lemma SameEntries<K, V>(a: map<K, V>, b: map<K, V>)
    requires a.Keys == b.Keys
    requires forall k :: k in a ==> a[k] == b[k]
    ensures a == b
  {
  }

  /** A loan is among the sweep's keys exactly when the sweep should mark it. */
  lemma SweepKeysExact(t: Table, today: Date)
    ensures forall k :: k in t ==> (k in SweepKeys(t, today) <==> SweepCandidate(t[k], today))
  {
    SweepKeysComplete(t, today);
  }

  class Ledger {
    /** The rows of the `issues` table, by id. */
    var rows: Table
    /** The id the database assigns to the next inserted row. */
    var nextId: int

    ghost predicate Valid()
      reads this
    {
      Consistent(rows) && forall k :: k in rows ==> k < nextId
    }

    constructor ()
      ensures rows == map[] && nextId == 1 && Valid()
    {
      rows := map[];
      nextId := 1;
    }

    /** `create_issue`: check the book, then the customer, then scan the open
        loans for this book; insert a new `issued` loan if none is found. */
    method CreateIssue(books: Catalog, customers: map<int, Customer>, req: IssueCreate, librarianId: int)
      returns (r: Result<Issue, Error>)
      requires Valid()
      modifies this
      ensures Valid()
      ensures r == CreateOutcome(old(rows), books, customers, req, librarianId, old(nextId))
      ensures rows == (if r.Ok? then old(rows)[old(nextId) := r.value] else old(rows))
      ensures nextId == (if r.Ok? then old(nextId) + 1 else old(nextId))
    {
      if req.bookId !in books {
        return Err(BookNotFound);
      }
      if req.customerId !in customers {
        return Err(CustomerNotFound);
      }
      var blocking := FindActiveLoan(ActiveIssues(rows), req.bookId);
      if blocking.Some? {
        return Err(BookAlreadyIssued(blocking.value));
      }
      var issue := Issue(nextId, req.bookId, req.customerId, librarianId, req.dateOfIssue,
                         req.returnUntil, None, Issued, req.notes);
      assert CreateOutcome(rows, books, customers, req, librarianId, nextId) == Ok(issue);
      StepPreservesConsistent(rows, books, customers, CreateReq(req, librarianId, nextId));
      assert Step(rows, books, customers, CreateReq(req, librarianId, nextId)) == Ok(rows[nextId := issue]);
      rows := rows[nextId := issue];
      nextId := nextId + 1;
      r := Ok(issue);
    }

    /** `return_book`: refuse unknown and returned loans; otherwise set the
        status by comparing with the due date, the return date, and the notes
        when non-empty ones are sent. */
    method ReturnBook(id: int, req: IssueReturn) returns (r: Result<Issue, Error>)
      requires Valid()
      modifies this
      ensures Valid()
      ensures r == ReturnOutcome(old(rows), id, req)
      ensures rows == (if r.Ok? then old(rows)[id := r.value] else old(rows))
      ensures nextId == old(nextId)
    {
      if id !in rows {
        return Err(IssueNotFound);
      }
      var issue := rows[id];
      if issue.returnDate.Some? {
        return Err(BookAlreadyReturned);
      }
      if req.returnDate > issue.returnUntil {
        issue := issue.(status := ReturnedLate);
      } else {
        issue := issue.(status := ReturnedOnTime);
      }
      issue := issue.(returnDate := Some(req.returnDate));
      if Truthy(req.notes) {
        issue := issue.(notes := req.notes);
      }
      StepPreservesConsistent(rows, map[], map[], ReturnReq(id, req));
      rows := rows[id := issue];
      r := Ok(issue);
    }

    /** `update_issue`: write each field the request sent. */
    method UpdateIssue(id: int, u: IssueUpdate) returns (r: Result<Issue, Error>)
      requires Valid()
      modifies this
      ensures Valid()
      ensures r == UpdateOutcome(old(rows), id, u)
      ensures rows == (if r.Ok? then old(rows)[id := r.value] else old(rows))
      ensures nextId == old(nextId)
    {
      if id !in rows {
        return Err(IssueNotFound);
      }
      if u.returnUntil == Some(None) {
        // the commit refuses NULL in the NOT NULL `return_until`; nothing is written
        return Err(NotNullViolation);
      }
      var issue := rows[id];
      if u.returnUntil.Some? {
        issue := issue.(returnUntil := u.returnUntil.value.value);
      }
      if u.notes.Some? {
        issue := issue.(notes := u.notes.value);
      }
      StepPreservesConsistent(rows, map[], map[], UpdateReq(id, u));
      rows := rows[id := issue];
      r := Ok(issue);
    }

    /** `delete_issue`: remove the named loan, refusing an unknown id. */
    method DeleteIssue(id: int) returns (r: Result<(), Error>)
      requires Valid()
      modifies this
      ensures Valid()
      ensures r.Err? <==> id !in old(rows)
      ensures r.Err? ==> r.error == IssueNotFound
      ensures rows == old(rows) - {id} && nextId == old(nextId)
    {
      if id !in rows {
        return Err(IssueNotFound);
      }
      StepPreservesConsistent(rows, map[], map[], DeleteReq(id));
      rows := rows - {id};
      r := Ok(());
    }

    /** `check_overdue_issues`: select the open loans past their due date that
        are not yet overdue, then mark each of them overdue. */
    method CheckOverdue(today: Date)
      requires Valid()
      modifies this
      ensures Valid()
      ensures rows == Swept(old(rows), today) && nextId == old(nextId)
    {
      StepPreservesConsistent(rows, map[], map[], SweepReq(today));
      rows := SweepTable(rows, today);
    }

    /** `get_all_issues`: run the sweep, then list every loan with its names. */
    method GetAllIssues(today: Date, books: Catalog, customers: map<int, Customer>, librarians: map<int, string>)
      returns (r: seq<IssueWithDetails>)
      requires Valid()
      modifies this
      ensures Valid()
      ensures rows == Swept(old(rows), today) && nextId == old(nextId)
      ensures r == AllWithDetails(Rows(rows), books, customers, librarians)
    {
      CheckOverdue(today);
      r := AllWithDetails(Rows(rows), books, customers, librarians);
    }

    /** `get_active_issues`: run the sweep, then list the open loans with their names. */
    method GetActiveIssues(today: Date, books: Catalog, customers: map<int, Customer>, librarians: map<int, string>)
      returns (r: seq<IssueWithDetails>)
      requires Valid()
      modifies this
      ensures Valid()
      ensures rows == Swept(old(rows), today) && nextId == old(nextId)
      ensures r == AllWithDetails(ActiveIssues(rows), books, customers, librarians)
    {
      CheckOverdue(today);
      r := AllWithDetails(ActiveIssues(rows), books, customers, librarians);
    }

    /** `get_issue_by_id`. */
    function IssueById(id: int, books: Catalog, customers: map<int, Customer>, librarians: map<int, string>)
      : (r: Result<IssueWithDetails, Error>)
      reads this
      ensures r.Err? <==> id !in rows
      ensures r.Err? ==> r.error == IssueNotFound
      ensures r.Ok? ==> Shows(r.value, rows[id], books, customers, librarians)
    {
      if id !in rows then Err(IssueNotFound) else Ok(WithDetails(rows[id], books, customers, librarians))
    }

    /** `get_customer_issues`: 404 for an unknown customer, otherwise all of the
        customer's loans, newest first; no sweep is run. */
    function CustomerIssues(customerId: int, books: Catalog, customers: map<int, Customer>, librarians: map<int, string>)
      : (r: Result<seq<IssueWithDetails>, Error>)
      reads this
      ensures r.Err? <==> customerId !in customers
      ensures r.Err? ==> r.error == CustomerNotFound
      ensures r.Ok? ==> |r.value| == |IssuesByCustomer(rows, customerId, NoFilter)|
      ensures r.Ok? ==> forall k :: 0 <= k < |r.value| ==>
        Shows(r.value[k], IssuesByCustomer(rows, customerId, NoFilter)[k], books, customers, librarians)
    {
      if customerId !in customers then Err(CustomerNotFound)
      else Ok(AllWithDetails(IssuesByCustomer(rows, customerId, NoFilter), books, customers, librarians))
    }
  }

  /** A listing of a keyed table holding each of the customer's loans once
      names each of their ids once. */
  lemma CustomerListingIds(t: Table, xs: seq<Issue>, customerId: int)
    requires WellKeyed(t) && Distinct(xs)
    requires forall i :: i in xs <==> i in t.Values && OfCustomer(customerId, NoFilter, i)
    ensures forall k :: k in t && t[k].customerId == customerId <==> exists j :: 0 <= j < |xs| && xs[j].id == k
    ensures forall a, b :: 0 <= a < b < |xs| ==> xs[a].id != xs[b].id
  {
    forall k | k in t && t[k].customerId == customerId ensures exists j :: 0 <= j < |xs| && xs[j].id == k {
      assert t[k] in t.Values;
      assert t[k] in xs;
      var j :| 0 <= j < |xs| && xs[j] == t[k];
    }
    forall j | 0 <= j < |xs| ensures xs[j].id in t && t[xs[j].id].customerId == customerId {
      assert xs[j] in xs;
      var m :| m in t && t[m] == xs[j];
    }
    forall a, b | 0 <= a < b < |xs| ensures xs[a].id != xs[b].id {
      assert xs[a] in xs && xs[b] in xs;
      var ka :| ka in t && t[ka] == xs[a];
      var kb :| kb in t && t[kb] == xs[b];
    }
  }

  /** The repository's listing of a customer's loans names each of their ids
      once, latest issue date first. */
  lemma CustomerLoanIds(t: Table, customerId: int)
    requires WellKeyed(t)
    ensures var xs := IssuesByCustomer(t, customerId, NoFilter);
      (forall k :: k in t && t[k].customerId == customerId <==> exists j :: 0 <= j < |xs| && xs[j].id == k) &&
      (forall a, b :: 0 <= a < b < |xs| ==> xs[a].id != xs[b].id) &&
      (forall a, b :: 0 <= a < b < |xs| ==> xs[a].dateOfIssue >= xs[b].dateOfIssue)
  {
    IssuesByCustomerSpec(t, customerId, NoFilter);
    CustomerListingIds(t, IssuesByCustomer(t, customerId, NoFilter), customerId);
  }

  /** The items of `get_customer_issues` show exactly the customer's loans,
      each once, newest issue date first. */
  lemma CustomerItemsSpec(t: Table, customerId: int, books: Catalog, customers: map<int, Customer>,
                          librarians: map<int, string>)
    requires WellKeyed(t)
    ensures var r := AllWithDetails(IssuesByCustomer(t, customerId, NoFilter), books, customers, librarians);
      (forall k :: k in t && t[k].customerId == customerId <==> exists j :: 0 <= j < |r| && r[j].id == k) &&
      (forall a, b :: 0 <= a < b < |r| ==> r[a].id != r[b].id) &&
      (forall a, b :: 0 <= a < b < |r| ==> r[a].dateOfIssue >= r[b].dateOfIssue)
  {
    CustomerLoanIds(t, customerId);
    ItemsFollowListing(t, customerId, IssuesByCustomer(t, customerId, NoFilter), books, customers, librarians);
  }

  /** The items of a listing inherit what the listing's ids and dates say. */
  lemma ItemsFollowListing(t: Table, customerId: int, xs: seq<Issue>, books: Catalog,
                           customers: map<int, Customer>, librarians: map<int, string>)
    requires (forall k :: k in t && t[k].customerId == customerId <==> exists j :: 0 <= j < |xs| && xs[j].id == k) &&
             (forall a, b :: 0 <= a < b < |xs| ==> xs[a].id != xs[b].id) &&
             (forall a, b :: 0 <= a < b < |xs| ==> xs[a].dateOfIssue >= xs[b].dateOfIssue)
    ensures var r := AllWithDetails(xs, books, customers, librarians);
      (forall k :: k in t && t[k].customerId == customerId <==> exists j :: 0 <= j < |r| && r[j].id == k) &&
      (forall a, b :: 0 <= a < b < |r| ==> r[a].id != r[b].id) &&
      (forall a, b :: 0 <= a < b < |r| ==> r[a].dateOfIssue >= r[b].dateOfIssue)
  {
    var r := AllWithDetails(xs, books, customers, librarians);
    assert forall j :: 0 <= j < |xs| ==> r[j].id == xs[j].id && r[j].dateOfIssue == xs[j].dateOfIssue;
    forall k | k in t && t[k].customerId == customerId ensures exists j :: 0 <= j < |r| && r[j].id == k {
      var j :| 0 <= j < |xs| && xs[j].id == k;
      assert r[j].id == k;
    }
    forall k, j | 0 <= j < |r| && r[j].id == k ensures k in t && t[k].customerId == customerId {
      assert xs[j].id == k;
    }
  }

  /** The read after `get_all_issues`/`get_active_issues` never shows an open
      loan past its due date with a status other than overdue. */
  lemma ReadAfterSweepShowsOverdue(t: Table, today: Date)
    ensures forall i :: i in ActiveIssues(Swept(t, today)) && i.returnUntil < today ==> i.status == Overdue
  {
    var s := Swept(t, today);
    forall i | i in ActiveIssues(s) && i.returnUntil < today ensures i.status == Overdue {
      ActiveIssuesSound(s, i);
      var k :| k in s && s[k] == i;
    }
  }
}
