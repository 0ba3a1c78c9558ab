/** The two reports of the reports tab. The reminders report lists the open
    loans whose due date has passed, and the book history lists every loan of
    one book. Each report is a filter followed by an `ORDER BY` over the
    `issues` table, plus the projection its service builds. */
module Reports {
  import opened Outcomes
  import opened Text
  import opened Calendar
  import opened Sequences
  import opened Sorting
  import opened Library
  import opened Issues

  // ---------------------------------------------------------------------------
  // get_overdue_issues
  // ---------------------------------------------------------------------------

  /** The sort fields the overdue report knows. */
  datatype OverdueField = ByTitle | ByCustomer | ByDateOfIssue | ByReturnUntil

  /** `sort_by` as the report reads it; any other text means `return_until`. */
  function OverdueFieldOf(sortBy: string): OverdueField
  {
    if sortBy == "title" then ByTitle
    else if sortBy == "customer" then ByCustomer
    else if sortBy == "date_of_issue" then ByDateOfIssue
    else ByReturnUntil
  }

  /** The value of the sort field of a loan. */
  function OverdueKey(f: OverdueField, books: Catalog, customers: map<int, Customer>): Issue -> Key
  {
    match f
    case ByTitle => (i: Issue) => TextKey(TitleOf(books, i.bookId))
    case ByCustomer => (i: Issue) => TextKey(NameOf(customers, i.customerId))
    case ByDateOfIssue => (i: Issue) => DateKey(i.dateOfIssue)
    case ByReturnUntil => (i: Issue) => DateKey(i.returnUntil)
  }

  /** The `WHERE` of the overdue report. A name or title filter applies only
      when it is given and not empty; it keeps the rows whose text contains
      it, ignoring case. */
  predicate OverdueRow(i: Issue, books: Catalog, customers: map<int, Customer>, today: Date,
                       customerName: Option<string>, bookTitle: Option<string>)
  {
    Active(i) && i.returnUntil < today &&
    (Truthy(customerName) ==> ILikeContains(NameOf(customers, i.customerId), customerName.value)) &&
    (Truthy(bookTitle) ==> ILikeContains(TitleOf(books, i.bookId), bookTitle.value))
  }

  function OverdueFilter(books: Catalog, customers: map<int, Customer>, today: Date,
                         customerName: Option<string>, bookTitle: Option<string>): Issue -> bool
  {
    (i: Issue) => OverdueRow(i, books, customers, today, customerName, bookTitle)
  }

  /** `get_overdue_issues`: the filtered rows, sorted descending exactly when
      `order` is `"desc"`. */
  function OverdueIssues(t: Table, books: Catalog, customers: map<int, Customer>, today: Date,
                         sortBy: string, order: string,
                         customerName: Option<string>, bookTitle: Option<string>): seq<Issue>
  {
    SortBy(Filter(Rows(t), OverdueFilter(books, customers, today, customerName, bookTitle)),
           OverdueKey(OverdueFieldOf(sortBy), books, customers), order == "desc")
  }

  /** Only the four known field names select a field; everything else falls
      back to the due date. */
  lemma OverdueFieldFallback(sortBy: string)
    ensures OverdueFieldOf(sortBy) == ByTitle <==> sortBy == "title"
    ensures OverdueFieldOf(sortBy) == ByCustomer <==> sortBy == "customer"
    ensures OverdueFieldOf(sortBy) == ByDateOfIssue <==> sortBy == "date_of_issue"
    ensures OverdueFieldOf(sortBy) == ByReturnUntil <==>
      sortBy != "title" && sortBy != "customer" && sortBy != "date_of_issue"
  {
  }

  /** The report lists exactly the open loans past their due date that pass the
      filters, each once, in the order of the selected field. */
  lemma OverdueIssuesSpec(t: Table, books: Catalog, customers: map<int, Customer>, today: Date,
                          sortBy: string, order: string,
                          customerName: Option<string>, bookTitle: Option<string>)
    requires WellKeyed(t)
    ensures var r := OverdueIssues(t, books, customers, today, sortBy, order, customerName, bookTitle);
      (forall i :: i in r <==> i in t.Values && OverdueRow(i, books, customers, today, customerName, bookTitle)) &&
      Distinct(r) &&
      SortedBy(r, OverdueKey(OverdueFieldOf(sortBy), books, customers), order == "desc")
  {
    var p := OverdueFilter(books, customers, today, customerName, bookTitle);
    WellKeyedRowsDistinct(t);
    FilterDistinct(Rows(t), p);
    FilterRowsMembers(t, p);
    var key := OverdueKey(OverdueFieldOf(sortBy), books, customers);
    SortDistinct(Filter(Rows(t), p), key, order == "desc");
    var r := SortBy(Filter(Rows(t), p), key, order == "desc");
    forall i ensures i in r <==> i in t.Values && OverdueRow(i, books, customers, today, customerName, bookTitle) {
      assert p(i) == OverdueRow(i, books, customers, today, customerName, bookTitle);
    }
  }

  /** Every listed loan is open and its due date lies before the day of the query. */
  lemma OverdueRowsAreLate(t: Table, books: Catalog, customers: map<int, Customer>, today: Date,
                           sortBy: string, order: string,
                           customerName: Option<string>, bookTitle: Option<string>)
    ensures forall i :: i in OverdueIssues(t, books, customers, today, sortBy, order, customerName, bookTitle) ==>
      i.returnDate.None? && i.returnUntil < today
  {
    var xs := Filter(Rows(t), OverdueFilter(books, customers, today, customerName, bookTitle));
    var r := OverdueIssues(t, books, customers, today, sortBy, order, customerName, bookTitle);
    forall i | i in r ensures i.returnDate.None? && i.returnUntil < today {
      assert i in multiset(r);
      assert i in multiset(xs);
    }
  }

  /** With a date field the order is the order of that date: earliest first,
      or latest first under `"desc"`. */
  lemma OverdueDateOrder(t: Table, books: Catalog, customers: map<int, Customer>, today: Date,
                         sortBy: string, order: string,
                         customerName: Option<string>, bookTitle: Option<string>)
    ensures var r := OverdueIssues(t, books, customers, today, sortBy, order, customerName, bookTitle);
      forall a, b :: 0 <= a < b < |r| ==>
        (OverdueFieldOf(sortBy) == ByReturnUntil && order != "desc" ==> r[a].returnUntil <= r[b].returnUntil) &&
        (OverdueFieldOf(sortBy) == ByReturnUntil && order == "desc" ==> r[a].returnUntil >= r[b].returnUntil) &&
        (OverdueFieldOf(sortBy) == ByDateOfIssue && order != "desc" ==> r[a].dateOfIssue <= r[b].dateOfIssue) &&
        (OverdueFieldOf(sortBy) == ByDateOfIssue && order == "desc" ==> r[a].dateOfIssue >= r[b].dateOfIssue)
  {
    var f := OverdueFieldOf(sortBy);
    var key := OverdueKey(f, books, customers);
    var xs := Filter(Rows(t), OverdueFilter(books, customers, today, customerName, bookTitle));
    SortBySorted(xs, key, order == "desc");
    OverdueDatesInOrder(SortBy(xs, key, order == "desc"), f, books, customers, order == "desc");
  }

  lemma OverdueDatesInOrder(r: seq<Issue>, f: OverdueField, books: Catalog, customers: map<int, Customer>, desc: bool)
    requires SortedBy(r, OverdueKey(f, books, customers), desc)
    ensures forall a, b :: 0 <= a < b < |r| ==>
      (f == ByReturnUntil && !desc ==> r[a].returnUntil <= r[b].returnUntil) &&
      (f == ByReturnUntil && desc ==> r[a].returnUntil >= r[b].returnUntil) &&
      (f == ByDateOfIssue && !desc ==> r[a].dateOfIssue <= r[b].dateOfIssue) &&
      (f == ByDateOfIssue && desc ==> r[a].dateOfIssue >= r[b].dateOfIssue)
  {
    var key := OverdueKey(f, books, customers);
    forall a, b | 0 <= a < b < |r|
      ensures (f == ByReturnUntil && !desc ==> r[a].returnUntil <= r[b].returnUntil) &&
        (f == ByReturnUntil && desc ==> r[a].returnUntil >= r[b].returnUntil) &&
        (f == ByDateOfIssue && !desc ==> r[a].dateOfIssue <= r[b].dateOfIssue) &&
        (f == ByDateOfIssue && desc ==> r[a].dateOfIssue >= r[b].dateOfIssue)
    {
      assert InOrder(key(r[a]), key(r[b]), desc);
      if f == ByReturnUntil {
        DateKeyOrder(r[a].returnUntil, r[b].returnUntil);
        DateKeyOrder(r[b].returnUntil, r[a].returnUntil);
      } else if f == ByDateOfIssue {
        DateKeyOrder(r[a].dateOfIssue, r[b].dateOfIssue);
        DateKeyOrder(r[b].dateOfIssue, r[a].dateOfIssue);
      }
    }
  }

  // ---------------------------------------------------------------------------
  // get_reminders
  // ---------------------------------------------------------------------------

  /** `ReminderItem`. */
  datatype ReminderItem = ReminderItem(
    issueId: int, bookId: int, title: string, customer: string,
    dateOfIssue: Date, returnUntil: Date, daysOverdue: int)

  /** `ReminderResponse`. */
  datatype ReminderResponse = ReminderResponse(total: int, items: seq<ReminderItem>)

  /** One reminder; `days_overdue` counts the days from the due date to `today`. */
  function Reminder(books: Catalog, customers: map<int, Customer>, today: Date): Issue -> ReminderItem
  {
    (i: Issue) => ReminderItem(i.id, i.bookId, TitleOf(books, i.bookId), NameOf(customers, i.customerId),
                               i.dateOfIssue, i.returnUntil, today - i.returnUntil)
  }

  /** `get_reminders`. The repository and the service read the clock
      separately: `queryDay` is the day the repository filters on, `today` the
      day the service counts from. The service does not run the overdue sweep. */
  function Reminders(t: Table, books: Catalog, customers: map<int, Customer>, queryDay: Date, today: Date,
                     sortBy: string, order: string,
                     customerName: Option<string>, bookTitle: Option<string>): ReminderResponse
  {
    var items := MapSeq(OverdueIssues(t, books, customers, queryDay, sortBy, order, customerName, bookTitle),
                        Reminder(books, customers, today));
    ReminderResponse(|items|, items)
  }

  /** One item per listed loan, in the report's order; `total` counts them, and
      every loan is at least one day overdue when both clock reads give the
      same day (or the second a later one). */
  lemma RemindersSpec(t: Table, books: Catalog, customers: map<int, Customer>, queryDay: Date, today: Date,
                      sortBy: string, order: string,
                      customerName: Option<string>, bookTitle: Option<string>)
    ensures var issues := OverdueIssues(t, books, customers, queryDay, sortBy, order, customerName, bookTitle);
      var r := Reminders(t, books, customers, queryDay, today, sortBy, order, customerName, bookTitle);
      r.total == |r.items| == |issues| &&
      forall k :: 0 <= k < |issues| ==>
        r.items[k].issueId == issues[k].id && r.items[k].bookId == issues[k].bookId &&
        r.items[k].dateOfIssue == issues[k].dateOfIssue && r.items[k].returnUntil == issues[k].returnUntil &&
        r.items[k].title == TitleOf(books, issues[k].bookId) &&
        r.items[k].customer == NameOf(customers, issues[k].customerId) &&
        r.items[k].daysOverdue == today - issues[k].returnUntil &&
        (queryDay <= today ==> r.items[k].daysOverdue >= 1)
  {
    var issues := OverdueIssues(t, books, customers, queryDay, sortBy, order, customerName, bookTitle);
    OverdueRowsAreLate(t, books, customers, queryDay, sortBy, order, customerName, bookTitle);
    ReminderItemsCopy(issues, books, customers, queryDay, today);
  }

  /** Each reminder copies its loan and counts the days from its due date. */
  lemma ReminderItemsCopy(issues: seq<Issue>, books: Catalog, customers: map<int, Customer>, queryDay: Date, today: Date)
    requires forall i :: i in issues ==> i.returnUntil < queryDay
    ensures var items := MapSeq(issues, Reminder(books, customers, today));
      |items| == |issues| &&
      forall k :: 0 <= k < |issues| ==>
        items[k].issueId == issues[k].id && items[k].bookId == issues[k].bookId &&
        items[k].dateOfIssue == issues[k].dateOfIssue && items[k].returnUntil == issues[k].returnUntil &&
        items[k].title == TitleOf(books, issues[k].bookId) &&
        items[k].customer == NameOf(customers, issues[k].customerId) &&
        items[k].daysOverdue == today - issues[k].returnUntil &&
        (queryDay <= today ==> items[k].daysOverdue >= 1)
  {
    assert forall k :: 0 <= k < |issues| ==> issues[k] in issues;
  }

  /** A loan with its status forgotten. */
  function Blind(i: Issue): Issue
  {
    i.(status := Issued)
  }

  /** Two tables that differ at most in the status of their loans list the
      same rows once statuses are forgotten. */
  lemma RowsBlind(t: Table, u: Table)
    requires forall k :: k in u <==> k in t
    requires forall k :: k in t ==> Blind(u[k]) == Blind(t[k])
    ensures MapSeq(Rows(u), Blind) == MapSeq(Rows(t), Blind)
  {
    assert u.Keys == t.Keys by {
      forall k | k in u.Keys ensures k in t.Keys {
        assert k in u;
      }
      forall k | k in t.Keys ensures k in u.Keys {
        assert k in t;
      }
    }
    var ks := Ascending(t.Keys);
    forall i | 0 <= i < |t| ensures MapSeq(Rows(u), Blind)[i] == MapSeq(Rows(t), Blind)[i] {
      RowsAt(t, i);
      RowsAt(u, i);
      assert ks[i] in ks;
      assert Rows(u)[i] == u[ks[i]] && Rows(t)[i] == t[ks[i]];
    }
  }

  lemma OverdueIssuesBlind(t: Table, u: Table, books: Catalog, customers: map<int, Customer>, today: Date,
                           sortBy: string, order: string,
                           customerName: Option<string>, bookTitle: Option<string>)
    requires forall k :: k in u <==> k in t
    requires forall k :: k in t ==> Blind(u[k]) == Blind(t[k])
    ensures MapSeq(OverdueIssues(u, books, customers, today, sortBy, order, customerName, bookTitle), Blind) ==
            MapSeq(OverdueIssues(t, books, customers, today, sortBy, order, customerName, bookTitle), Blind)
  {
    var p := OverdueFilter(books, customers, today, customerName, bookTitle);
    var key := OverdueKey(OverdueFieldOf(sortBy), books, customers);
    var desc := order == "desc";
    BlindKeepsFilter(books, customers, today, customerName, bookTitle);
    BlindKeepsKey(OverdueFieldOf(sortBy), books, customers);
    calc {
      MapSeq(SortBy(Filter(Rows(u), p), key, desc), Blind);
      == { SortByMap(Filter(Rows(u), p), Blind, key, key, desc); }
      SortBy(MapSeq(Filter(Rows(u), p), Blind), key, desc);
      == { FilterMap(Rows(u), Blind, p, p); }
      SortBy(Filter(MapSeq(Rows(u), Blind), p), key, desc);
      == { RowsBlind(t, u); }
      SortBy(Filter(MapSeq(Rows(t), Blind), p), key, desc);
      == { FilterMap(Rows(t), Blind, p, p); }
      SortBy(MapSeq(Filter(Rows(t), p), Blind), key, desc);
      == { SortByMap(Filter(Rows(t), p), Blind, key, key, desc); }
      MapSeq(SortBy(Filter(Rows(t), p), key, desc), Blind);
    }
  }

  /** The overdue filter does not look at the status. */
  lemma BlindKeepsFilter(books: Catalog, customers: map<int, Customer>, today: Date,
                         customerName: Option<string>, bookTitle: Option<string>)
    ensures forall x :: OverdueFilter(books, customers, today, customerName, bookTitle)(Blind(x)) ==
                        OverdueFilter(books, customers, today, customerName, bookTitle)(x)
  {
  }

  /** No sort field of the overdue report is the status. */
  lemma BlindKeepsKey(f: OverdueField, books: Catalog, customers: map<int, Customer>)
    ensures forall x :: OverdueKey(f, books, customers)(Blind(x)) == OverdueKey(f, books, customers)(x)
  {
  }

  /** The reminders do not depend on the status column: running the overdue
      sweep first, or not, gives the same response. */
  lemma RemindersIgnoreStatus(t: Table, u: Table, books: Catalog, customers: map<int, Customer>,
                              queryDay: Date, today: Date, sortBy: string, order: string,
                              customerName: Option<string>, bookTitle: Option<string>)
    requires forall k :: k in u <==> k in t
    requires forall k :: k in t ==> Blind(u[k]) == Blind(t[k])
    ensures Reminders(u, books, customers, queryDay, today, sortBy, order, customerName, bookTitle) ==
            Reminders(t, books, customers, queryDay, today, sortBy, order, customerName, bookTitle)
  {
    var rt := OverdueIssues(t, books, customers, queryDay, sortBy, order, customerName, bookTitle);
    var ru := OverdueIssues(u, books, customers, queryDay, sortBy, order, customerName, bookTitle);
    var f := Reminder(books, customers, today);
    OverdueIssuesBlind(t, u, books, customers, queryDay, sortBy, order, customerName, bookTitle);
    assert forall x :: f(Blind(x)) == f(x);
    MapSeqFactor(ru, rt, Blind, f);
  }

  lemma RemindersIgnoreSweep(t: Table, books: Catalog, customers: map<int, Customer>,
                             sweepDay: Date, queryDay: Date, today: Date, sortBy: string, order: string,
                             customerName: Option<string>, bookTitle: Option<string>)
    ensures Reminders(Swept(t, sweepDay), books, customers, queryDay, today, sortBy, order, customerName, bookTitle) ==
            Reminders(t, books, customers, queryDay, today, sortBy, order, customerName, bookTitle)
  {
    RemindersIgnoreStatus(t, Swept(t, sweepDay), books, customers, queryDay, today, sortBy, order, customerName, bookTitle);
  }

  // ---------------------------------------------------------------------------
  // get_book_history
  // ---------------------------------------------------------------------------

  /** The sort fields the history knows. */
  datatype HistoryField = HistByCustomer | HistByReturnDate | HistByDateOfIssue

  /** `sort_by` as the history reads it; any other text means `date_of_issue`. */
  function HistoryFieldOf(sortBy: string): HistoryField
  {
    if sortBy == "customer" then HistByCustomer
    else if sortBy == "return_date" then HistByReturnDate
    else HistByDateOfIssue
  }

  function HistoryKey(f: HistoryField, customers: map<int, Customer>): Issue -> Key
  {
    match f
    case HistByCustomer => (i: Issue) => TextKey(NameOf(customers, i.customerId))
    case HistByReturnDate => (i: Issue) => NullableDateKey(i.returnDate)
    case HistByDateOfIssue => (i: Issue) => DateKey(i.dateOfIssue)
  }

  /** The customer sort orders by name ascending first; a descending order
      only adds a second, redundant key. */
  function HistoryDesc(f: HistoryField, order: string): bool
  {
    f != HistByCustomer && order == "desc"
  }

  function OfBook(bookId: int): Issue -> bool
  {
    (i: Issue) => i.bookId == bookId
  }

  /** `get_book_history`: `None` for an unknown book, else the book and its loans. */
  function BookHistory(t: Table, books: Catalog, customers: map<int, Customer>, bookId: int,
                       sortBy: string, order: string): Option<(Book, seq<Issue>)>
  {
    if bookId !in books then None
    else
      var f := HistoryFieldOf(sortBy);
      Some((books[bookId], SortBy(Filter(Rows(t), OfBook(bookId)), HistoryKey(f, customers), HistoryDesc(f, order))))
  }

  /** No history for an unknown book; otherwise the book and exactly its loans,
      each once, in the order of the selected field. */
  lemma BookHistorySpec(t: Table, books: Catalog, customers: map<int, Customer>, bookId: int,
                        sortBy: string, order: string)
    requires WellKeyed(t)
    ensures BookHistory(t, books, customers, bookId, sortBy, order).None? <==> bookId !in books
    ensures BookHistory(t, books, customers, bookId, sortBy, order).Some? ==>
      var (b, r) := BookHistory(t, books, customers, bookId, sortBy, order).value;
      var f := HistoryFieldOf(sortBy);
      b == books[bookId] &&
      (forall i :: i in r <==> i in t.Values && i.bookId == bookId) &&
      Distinct(r) &&
      SortedBy(r, HistoryKey(f, customers), HistoryDesc(f, order))
  {
    if bookId in books {
      var f := HistoryFieldOf(sortBy);
      WellKeyedRowsDistinct(t);
      FilterDistinct(Rows(t), OfBook(bookId));
      FilterRowsMembers(t, OfBook(bookId));
      SortDistinct(Filter(Rows(t), OfBook(bookId)), HistoryKey(f, customers), HistoryDesc(f, order));
    }
  }

  /** The customer sort lists names in ascending order whatever `order` says,
      and gives the same history for every `order`. */
  lemma CustomerHistoryIgnoresOrder(t: Table, books: Catalog, customers: map<int, Customer>, bookId: int,
                                    order: string, other: string)
    requires WellKeyed(t)
    ensures BookHistory(t, books, customers, bookId, "customer", order) ==
            BookHistory(t, books, customers, bookId, "customer", other)
    ensures BookHistory(t, books, customers, bookId, "customer", order).Some? ==>
      var r := BookHistory(t, books, customers, bookId, "customer", order).value.1;
      forall a, b :: 0 <= a < b < |r| ==>
        KeyLe(TextKey(NameOf(customers, r[a].customerId)), TextKey(NameOf(customers, r[b].customerId)))
  {
    BookHistorySpec(t, books, customers, bookId, "customer", order);
  }

  /** The return-date sort puts dates in their order and the open loans
      (no return date) last when ascending, first when descending. */
  lemma HistoryReturnDateOrder(t: Table, books: Catalog, customers: map<int, Customer>, bookId: int, order: string)
    ensures BookHistory(t, books, customers, bookId, "return_date", order).Some? ==>
      var r := BookHistory(t, books, customers, bookId, "return_date", order).value.1;
      forall a, b :: 0 <= a < b < |r| ==>
        (order != "desc" ==> r[b].returnDate.None? || (r[a].returnDate.Some? && r[a].returnDate.value <= r[b].returnDate.value)) &&
        (order == "desc" ==> r[a].returnDate.None? || (r[b].returnDate.Some? && r[b].returnDate.value <= r[a].returnDate.value))
  {
    if bookId in books {
      var key := HistoryKey(HistByReturnDate, customers);
      SortBySorted(Filter(Rows(t), OfBook(bookId)), key, order == "desc");
      ReturnDatesInOrder(SortBy(Filter(Rows(t), OfBook(bookId)), key, order == "desc"), customers, order == "desc");
    }
  }

  lemma ReturnDatesInOrder(r: seq<Issue>, customers: map<int, Customer>, desc: bool)
    requires SortedBy(r, HistoryKey(HistByReturnDate, customers), desc)
    ensures forall a, b :: 0 <= a < b < |r| ==>
      (!desc ==> r[b].returnDate.None? || (r[a].returnDate.Some? && r[a].returnDate.value <= r[b].returnDate.value)) &&
      (desc ==> r[a].returnDate.None? || (r[b].returnDate.Some? && r[b].returnDate.value <= r[a].returnDate.value))
  {
    var key := HistoryKey(HistByReturnDate, customers);
    forall a, b | 0 <= a < b < |r|
      ensures (!desc ==> r[b].returnDate.None? || (r[a].returnDate.Some? && r[a].returnDate.value <= r[b].returnDate.value)) &&
        (desc ==> r[a].returnDate.None? || (r[b].returnDate.Some? && r[b].returnDate.value <= r[a].returnDate.value))
    {
      assert InOrder(key(r[a]), key(r[b]), desc);
      NullableDateKeyOrder(r[a].returnDate, r[b].returnDate);
      NullableDateKeyOrder(r[b].returnDate, r[a].returnDate);
    }
  }

  /** The default sort (and any unknown field) is by issue date: latest first
      under `"desc"`, earliest first otherwise. */
  lemma HistoryDateOfIssueOrder(t: Table, books: Catalog, customers: map<int, Customer>, bookId: int,
                                sortBy: string, order: string)
    requires sortBy != "customer" && sortBy != "return_date"
    ensures BookHistory(t, books, customers, bookId, sortBy, order).Some? ==>
      var r := BookHistory(t, books, customers, bookId, sortBy, order).value.1;
      forall a, b :: 0 <= a < b < |r| ==>
        (order != "desc" ==> r[a].dateOfIssue <= r[b].dateOfIssue) &&
        (order == "desc" ==> r[a].dateOfIssue >= r[b].dateOfIssue)
  {
    if bookId in books {
      var key := HistoryKey(HistByDateOfIssue, customers);
      SortBySorted(Filter(Rows(t), OfBook(bookId)), key, order == "desc");
      IssueDatesInOrder(SortBy(Filter(Rows(t), OfBook(bookId)), key, order == "desc"), customers, order == "desc");
    }
  }

  lemma IssueDatesInOrder(r: seq<Issue>, customers: map<int, Customer>, desc: bool)
    requires SortedBy(r, HistoryKey(HistByDateOfIssue, customers), desc)
    ensures forall a, b :: 0 <= a < b < |r| ==>
      (!desc ==> r[a].dateOfIssue <= r[b].dateOfIssue) && (desc ==> r[a].dateOfIssue >= r[b].dateOfIssue)
  {
    var key := HistoryKey(HistByDateOfIssue, customers);
    forall a, b | 0 <= a < b < |r|
      ensures (!desc ==> r[a].dateOfIssue <= r[b].dateOfIssue) && (desc ==> r[a].dateOfIssue >= r[b].dateOfIssue)
    {
      assert InOrder(key(r[a]), key(r[b]), desc);
      DateKeyOrder(r[a].dateOfIssue, r[b].dateOfIssue);
      DateKeyOrder(r[b].dateOfIssue, r[a].dateOfIssue);
    }
  }

  // ---------------------------------------------------------------------------
  // get_book_history (service)
  // ---------------------------------------------------------------------------

  /** `BookInfo`. */
  datatype BookInfo = BookInfo(id: int, title: string, subtitle: Option<string>)

  /** `BookHistoryItem`. */
  datatype BookHistoryItem = BookHistoryItem(
    issueId: int, customer: string, dateOfIssue: Date, returnDate: Option<Date>,
    returnUntil: Date, status: Status)

  /** `BookHistoryResponse`. */
  datatype BookHistoryResponse = BookHistoryResponse(book: BookInfo, totalIssues: int, history: seq<BookHistoryItem>)

  function HistoryItem(customers: map<int, Customer>): Issue -> BookHistoryItem
  {
    (i: Issue) => BookHistoryItem(i.id, NameOf(customers, i.customerId), i.dateOfIssue, i.returnDate,
                                  i.returnUntil, i.status)
  }

  /** The service's `get_book_history`: 404 for an unknown book, else the response. */
  function BookHistoryReport(t: Table, books: Catalog, customers: map<int, Customer>, bookId: int,
                             sortBy: string, order: string): Result<BookHistoryResponse, Error>
  {
    match BookHistory(t, books, customers, bookId, sortBy, order)
    case None => Err(BookNotFound)
    case Some((b, issues)) =>
      var items := MapSeq(issues, HistoryItem(customers));
      Ok(BookHistoryResponse(BookInfo(b.id, b.title, b.subtitle), |items|, items))
  }

  /** An unknown book answers 404 with no data; otherwise the response names
      the book, counts its items and copies each loan's dates and status in
      the repository's order. */
  lemma BookHistoryReportSpec(t: Table, books: Catalog, customers: map<int, Customer>, bookId: int,
                              sortBy: string, order: string)
    requires CatalogKeyed(books)
    ensures BookHistoryReport(t, books, customers, bookId, sortBy, order).Err? <==> bookId !in books
    ensures bookId !in books ==> BookHistoryReport(t, books, customers, bookId, sortBy, order) == Err(BookNotFound)
    ensures BookHistoryReport(t, books, customers, bookId, sortBy, order).Ok? ==>
      var r := BookHistoryReport(t, books, customers, bookId, sortBy, order).value;
      var issues := BookHistory(t, books, customers, bookId, sortBy, order).value.1;
      r.book == BookInfo(bookId, books[bookId].title, books[bookId].subtitle) &&
      r.totalIssues == |r.history| == |issues| &&
      forall k :: 0 <= k < |issues| ==>
        r.history[k].issueId == issues[k].id &&
        r.history[k].customer == NameOf(customers, issues[k].customerId) &&
        r.history[k].dateOfIssue == issues[k].dateOfIssue &&
        r.history[k].returnDate == issues[k].returnDate &&
        r.history[k].returnUntil == issues[k].returnUntil &&
        r.history[k].status == issues[k].status
  {
    var h := BookHistory(t, books, customers, bookId, sortBy, order);
    if h.Some? {
      HistoryItemsCopy(h.value.1, customers);
    }
  }

  /** Each history item copies its loan. */
  lemma HistoryItemsCopy(issues: seq<Issue>, customers: map<int, Customer>)
    ensures var items := MapSeq(issues, HistoryItem(customers));
      |items| == |issues| &&
      forall k :: 0 <= k < |issues| ==>
        items[k].issueId == issues[k].id &&
        items[k].customer == NameOf(customers, issues[k].customerId) &&
        items[k].dateOfIssue == issues[k].dateOfIssue &&
        items[k].returnDate == issues[k].returnDate &&
        items[k].returnUntil == issues[k].returnUntil &&
        items[k].status == issues[k].status
  {
  }
}
