/** The CSV exports of the two reports. A CSV file is modelled as its list of
    rows, each a list of cell texts; quoting by the CSV writer is not part of
    the model. The export handlers write the header and then one row per
    item, in a loop. */
module ReportsExport {
  import opened Outcomes
  import opened Text
  import opened Calendar
  import opened Sequences
  import opened Library
  import opened Issues
  import opened Reports

  /** The query defaults of the four report endpoints. */
  const RemindersDefaultSortBy := "return_until"
  const RemindersDefaultOrder := "asc"
  const HistoryDefaultSortBy := "date_of_issue"
  const HistoryDefaultOrder := "desc"

  /** The default reminders are sorted by due date, earliest first. */
  lemma RemindersDefaults()
    ensures OverdueFieldOf(RemindersDefaultSortBy) == ByReturnUntil && RemindersDefaultOrder != "desc"
  {
  }

  /** The default history is sorted by issue date, latest first. */
  lemma HistoryDefaults()
    ensures HistoryFieldOf(HistoryDefaultSortBy) == HistByDateOfIssue &&
            HistoryDesc(HistoryFieldOf(HistoryDefaultSortBy), HistoryDefaultOrder)
  {
  }

  type Row = seq<string>

  const ReminderHeader: Row := ["Title", "Customer", "Date of Issue", "Return Until", "Days Overdue"]
  const HistoryHeader: Row := ["Customer", "Date of Issue", "Return Date", "Return Until", "Status"]

  /** The cell of a loan that has not come back. */
  const NotReturned := "Not returned"

  function ReminderRow(item: ReminderItem): Row
  {
    [item.title, item.customer, FormatDate(item.dateOfIssue), FormatDate(item.returnUntil),
     IntToString(item.daysOverdue)]
  }

  function ReturnDateCell(d: Option<Date>): string
  {
    if d.Some? then FormatDate(d.value) else NotReturned
  }

  function HistoryRow(item: BookHistoryItem): Row
  {
    [item.customer, FormatDate(item.dateOfIssue), ReturnDateCell(item.returnDate),
     FormatDate(item.returnUntil), StatusName(item.status)]
  }

  /** Reads a status cell back. */
  function ParseStatus(s: string): Option<Status>
  {
    if s == "issued" then Some(Issued)
    else if s == "overdue" then Some(Overdue)
    else if s == "returned_on_time" then Some(ReturnedOnTime)
    else if s == "returned_late" then Some(ReturnedLate)
    else None
  }

  /** A CSV file: its header line and its data rows. */
  datatype CsvFile = CsvFile(header: Row, rows: seq<Row>)

  /** The reminders export: the header, then one row per item in order. */
  method ExportReminders(data: ReminderResponse) returns (f: CsvFile)
    ensures f.header == ReminderHeader && |f.rows| == |data.items|
    ensures forall k :: 0 <= k < |data.items| ==> f.rows[k] == ReminderRow(data.items[k])
  {
    var rows: seq<Row> := [];
    for i := 0 to |data.items|
      invariant |rows| == i
      invariant forall k :: 0 <= k < i ==> rows[k] == ReminderRow(data.items[k])
    {
      rows := rows + [ReminderRow(data.items[i])];
    }
    f := CsvFile(ReminderHeader, rows);
  }

  /** The book history export: the header, then one row per history item in order. */
  method ExportHistory(data: BookHistoryResponse) returns (f: CsvFile)
    ensures f.header == HistoryHeader && |f.rows| == |data.history|
    ensures forall k :: 0 <= k < |data.history| ==> f.rows[k] == HistoryRow(data.history[k])
  {
    var rows: seq<Row> := [];
    for i := 0 to |data.history|
      invariant |rows| == i
      invariant forall k :: 0 <= k < i ==> rows[k] == HistoryRow(data.history[k])
    {
      rows := rows + [HistoryRow(data.history[i])];
    }
    f := CsvFile(HistoryHeader, rows);
  }

  /** A reminder row has a cell per header column; both dates read back as
      `YYYY-MM-DD` and the last cell reads back as the days overdue. */
  lemma ReminderRowReadsBack(item: ReminderItem)
    ensures var row := ReminderRow(item);
      |row| == |ReminderHeader| &&
      row[0] == item.title && row[1] == item.customer &&
      |row[2]| == 10 && ParseDate(row[2]) == Some(item.dateOfIssue) &&
      |row[3]| == 10 && ParseDate(row[3]) == Some(item.returnUntil) &&
      ParseInt(row[4]) == item.daysOverdue
  {
    var row := ReminderRow(item);
    DateCellReadsBack(row[2], item.dateOfIssue);
    DateCellReadsBack(row[3], item.returnUntil);
    IntToStringRoundTrip(item.daysOverdue);
  }

  /** A date cell is ten characters and reads back as its date. */
  lemma DateCellReadsBack(cell: string, d: Date)
    requires cell == FormatDate(d)
    ensures |cell| == 10 && ParseDate(cell) == Some(d)
  {
    FormatDateRoundTrip(d);
  }

  /** The return-date cell is `Not returned` exactly for an open loan, and reads
      back as the return date (none for `Not returned`). */
  lemma ReturnDateCellReadsBack(d: Option<Date>)
    ensures ReturnDateCell(d) == NotReturned <==> d.None?
    ensures ParseDate(ReturnDateCell(d)) == d
  {
    if d.Some? {
      FormatDateRoundTrip(d.value);
    }
  }

  /** A history row has a cell per header column and its dates and status
      read back as the item's. */
  lemma HistoryRowReadsBack(item: BookHistoryItem)
    ensures var row := HistoryRow(item);
      |row| == |HistoryHeader| && row[0] == item.customer &&
      ParseDate(row[1]) == Some(item.dateOfIssue) &&
      ParseDate(row[2]) == item.returnDate &&
      ParseDate(row[3]) == Some(item.returnUntil) &&
      ParseStatus(row[4]) == Some(item.status)
  {
    var row := HistoryRow(item);
    DateCellReadsBack(row[1], item.dateOfIssue);
    ReturnDateCellReadsBack(item.returnDate);
    DateCellReadsBack(row[3], item.returnUntil);
    StatusReadsBack(item.status);
  }

  lemma StatusReadsBack(s: Status)
    ensures ParseStatus(StatusName(s)) == Some(s)
  {
  }

  /** The name of the history file. */
  function HistoryFilename(title: string): string
  {
    "book_history_" + ReplaceChar(title, ' ', '_') + ".csv"
  }

  /** The file name is `book_history_`, the title with each space turned into
      `_`, and `.csv`; it holds no space. */
  lemma HistoryFilenameSpec(title: string)
    ensures var name := HistoryFilename(title);
      |name| == |title| + 17 &&
      name[..13] == "book_history_" && name[|name| - 4..] == ".csv" &&
      (forall i :: 0 <= i < |title| ==> name[13 + i] == (if title[i] == ' ' then '_' else title[i])) &&
      ' ' !in name
  {
    var name := HistoryFilename(title);
    var mid := ReplaceChar(title, ' ', '_');
    assert name == "book_history_" + mid + ".csv";
    assert name[..13] == "book_history_";
    assert name[|name| - 4..] == ".csv";
    forall i | 0 <= i < |name| ensures name[i] != ' ' {
      if 13 <= i < 13 + |title| {
        assert name[i] == mid[i - 13];
      }
    }
  }

  /** For a title without underscores the title can be read back from the name. */
  lemma HistoryFilenameRecoversTitle(title: string)
    requires '_' !in title
    ensures var name := HistoryFilename(title);
      ReplaceChar(name[13..|name| - 4], '_', ' ') == title
  {
    var name := HistoryFilename(title);
    assert name[13..|name| - 4] == ReplaceChar(title, ' ', '_');
  }

  /** The whole reminders export: one line of header and one row per loan of
      the overdue report, in the report's order. */
  method ExportRemindersReport(t: Table, books: Catalog, customers: map<int, Customer>, queryDay: Date, today: Date,
                               sortBy: string, order: string,
                               customerName: Option<string>, bookTitle: Option<string>)
    returns (f: CsvFile)
    ensures var issues := OverdueIssues(t, books, customers, queryDay, sortBy, order, customerName, bookTitle);
      f.header == ReminderHeader && |f.rows| == |issues| &&
      forall k :: 0 <= k < |issues| ==>
        f.rows[k] == ReminderRow(Reminder(books, customers, today)(issues[k]))
  {
    var data := Reminders(t, books, customers, queryDay, today, sortBy, order, customerName, bookTitle);
    f := ExportReminders(data);
  }

  /** The whole history export: 404 for an unknown book, else the rows and the
      file name derived from the book's title. */
  method ExportHistoryReport(t: Table, books: Catalog, customers: map<int, Customer>, bookId: int,
                             sortBy: string, order: string)
    returns (r: Result<(CsvFile, string), Error>)
    ensures r.Err? <==> bookId !in books
    ensures r.Err? ==> r.error == BookNotFound
    ensures r.Ok? ==>
      var issues := BookHistory(t, books, customers, bookId, sortBy, order).value.1;
      var (f, name) := r.value;
      name == HistoryFilename(books[bookId].title) &&
      f.header == HistoryHeader && |f.rows| == |issues| &&
      forall k :: 0 <= k < |issues| ==> f.rows[k] == HistoryRow(HistoryItem(customers)(issues[k]))
  {
    var data := BookHistoryReport(t, books, customers, bookId, sortBy, order);
    match data {
      case Err(e) =>
        r := Err(e);
      case Ok(response) =>
        var f := ExportHistory(response);
        r := Ok((f, HistoryFilename(response.book.title)));
    }
  }
}
