/** The showcase: the curated, ordered list of books on the front page. The
    `showcase` table holds one row per book with its 1-based position, and
    `book_id` is unique in it. Setting the showcase checks every requested
    book, drops repeated ids keeping their first occurrence, and replaces the
    whole table. Reading it lists the books by position. */
module Showcase {
  import opened Outcomes
  import opened Sequences
  import opened Sorting
  import opened Library

  /** A row of the `showcase` table. */
  datatype Entry = Entry(id: int, bookId: int, position: int)

  /** `BookShort`: authors are absent (not an empty list) for a book without authors. */
  datatype BookShort = BookShort(id: int, title: string, authors: Option<seq<AuthorShort>>)

  /** `ShowcaseResponse`. */
  datatype ShowcaseResponse = ShowcaseResponse(total: int, books: seq<BookShort>)

  // ---------------------------------------------------------------------------
  // Validation: the first requested id that is not a book
  // ---------------------------------------------------------------------------

  function FirstMissing(ids: seq<int>, books: Catalog): (r: Option<int>)
    ensures r.None? <==> forall i :: 0 <= i < |ids| ==> ids[i] in books
  {
    if ids == [] then None
    else if ids[0] !in books then Some(ids[0])
    else
      var r := FirstMissing(ids[1..], books);
      assert forall i :: 1 <= i < |ids| ==> ids[i] == ids[1..][i - 1];
      r
  }

  /** A missing id is reported at its first position, and every id before it is a book. */
  lemma {:induction false} FirstMissingAt(ids: seq<int>, books: Catalog)
    requires FirstMissing(ids, books).Some?
    ensures exists i :: (0 <= i < |ids| && ids[i] == FirstMissing(ids, books).value &&
      ids[i] !in books && forall j :: 0 <= j < i ==> ids[j] in books)
    decreases |ids|
  {
    if ids[0] in books {
      FirstMissingAt(ids[1..], books);
      var i :| 0 <= i < |ids[1..]| && ids[1..][i] == FirstMissing(ids[1..], books).value &&
        ids[1..][i] !in books && forall j :: 0 <= j < i ==> ids[1..][j] in books;
      assert ids[i + 1] == ids[1..][i];
      forall j | 0 <= j < i + 1 ensures ids[j] in books {
        if j > 0 { assert ids[j] == ids[1..][j - 1]; }
      }
    } else {
      assert ids[0] == FirstMissing(ids, books).value;
    }
  }

  /** The validation loop of `set_showcase`: it stops at the first id that is not a book. */
  method FindMissing(ids: seq<int>, books: Catalog) returns (r: Option<int>)
    ensures r == FirstMissing(ids, books)
  {
    var i := 0;
    while i < |ids|
      invariant 0 <= i <= |ids|
      invariant FirstMissing(ids, books) == FirstMissing(ids[i..], books)
    {
      if ids[i] !in books {
        return Some(ids[i]);
      }
      assert ids[i..][1..] == ids[i + 1..];
      i := i + 1;
    }
    return None;
  }

  // ---------------------------------------------------------------------------
  // De-duplication, keeping first occurrences
  // ---------------------------------------------------------------------------

  /** The ids in order, each at its first occurrence only. */
  function Dedup(ids: seq<int>): (r: seq<int>)
    ensures forall x :: x in r <==> x in ids
    decreases |ids|
  {
    if ids == [] then []
    else
      var n := |ids| - 1;
      var front := Dedup(ids[..n]);
      assert forall x :: x in ids <==> x in ids[..n] || x == ids[n] by {
        assert ids == ids[..n] + [ids[n]];
      }
      if ids[n] in ids[..n] then front else front + [ids[n]]
  }

  /** The de-duplicated list has no repetitions. */
  lemma {:induction false} DedupDistinct(ids: seq<int>)
    ensures Distinct(Dedup(ids))
    decreases |ids|
  {
    if ids != [] {
      var n := |ids| - 1;
      DedupDistinct(ids[..n]);
    }
  }

  /** The position of the first occurrence of `x`. */
  function IndexOf(xs: seq<int>, x: int): (i: int)
    requires x in xs
    ensures 0 <= i < |xs| && xs[i] == x && forall j :: 0 <= j < i ==> xs[j] != x
  {
    if xs[0] == x then 0 else 1 + IndexOf(xs[1..], x)
  }

  lemma IndexOfPrefix(xs: seq<int>, n: int, x: int)
    requires 0 <= n <= |xs| && x in xs[..n]
    ensures x in xs && IndexOf(xs, x) == IndexOf(xs[..n], x)
  {
    var i := IndexOf(xs[..n], x);
    assert xs[..n][i] == xs[i];
    var k := IndexOf(xs, x);
    assert k <= i;
    assert xs[..n][k] == xs[k];
  }

  /** The de-duplicated list keeps the order of first occurrences. */
  lemma {:induction false} DedupOrder(ids: seq<int>)
    ensures forall a, b :: 0 <= a < b < |Dedup(ids)| ==> IndexOf(ids, Dedup(ids)[a]) < IndexOf(ids, Dedup(ids)[b])
    decreases |ids|
  {
    if ids != [] {
      var n := |ids| - 1;
      var front := Dedup(ids[..n]);
      DedupOrder(ids[..n]);
      var r := Dedup(ids);
      forall a, b | 0 <= a < b < |r| ensures IndexOf(ids, r[a]) < IndexOf(ids, r[b]) {
        assert r[a] == front[a] && front[a] in front;
        IndexOfPrefix(ids, n, r[a]);
        if b < |front| {
          assert r[b] == front[b] && front[b] in front;
          IndexOfPrefix(ids, n, r[b]);
        } else {
          assert r[b] == ids[n] && ids[n] !in ids[..n];
          forall j | 0 <= j < n ensures ids[j] != ids[n] {
            assert ids[j] == ids[..n][j];
          }
          assert IndexOf(ids, r[b]) == n;
        }
      }
    }
  }

  /** A list without repetitions is left as it is. */
  lemma {:induction false} DedupIdentity(ids: seq<int>)
    requires Distinct(ids)
    ensures Dedup(ids) == ids
    decreases |ids|
  {
    if ids != [] {
      var n := |ids| - 1;
      assert Distinct(ids[..n]);
      DedupIdentity(ids[..n]);
      assert ids[n] !in ids[..n];
      assert ids == ids[..n] + [ids[n]];
    }
  }

  /** A repeated book is listed once, where it first appears. */
  lemma DedupExample()
    ensures Dedup([3, 3, 7]) == [3, 7]
  {
    assert [3, 3, 7][..2] == [3, 3];
    assert [3, 3][..1] == [3];
    assert [3][..0] == [];
  }

  /** The de-duplication loop of `set_showcase`, with its `seen` set. */
  method DedupIds(ids: seq<int>) returns (unique: seq<int>)
    ensures unique == Dedup(ids)
  {
    unique := [];
    var seen: set<int> := {};
    for i := 0 to |ids|
      invariant unique == Dedup(ids[..i])
      invariant forall x :: x in seen <==> x in ids[..i]
    {
      assert ids[..i + 1][..i] == ids[..i];
      assert ids[..i + 1][i] == ids[i];
      assert forall x :: x in ids[..i + 1] <==> x in ids[..i] || x == ids[i] by {
        assert ids[..i + 1] == ids[..i] + [ids[i]];
      }
      if ids[i] !in seen {
        unique := unique + [ids[i]];
        seen := seen + {ids[i]};
      }
    }
    assert ids[..|ids|] == ids;
  }

  // ---------------------------------------------------------------------------
  // The table after a write, and reading it
  // ---------------------------------------------------------------------------

  /** The rows `set_showcase_books(ids)` inserts when the next row id is `base`. */
  function Written(ids: seq<int>, base: int): (w: map<int, Entry>)
    ensures forall k :: k in w <==> base <= k < base + |ids|
    decreases |ids|
  {
    if ids == [] then map[]
    else
      var n := |ids| - 1;
      Written(ids[..n], base)[base + n := Entry(base + n, ids[n], n + 1)]
  }

  /** The `i`-th requested book sits at position `i + 1`. */
  lemma {:induction false} WrittenAt(ids: seq<int>, base: int, i: int)
    requires 0 <= i < |ids|
    ensures Written(ids, base)[base + i] == Entry(base + i, ids[i], i + 1)
    decreases |ids|
  {
    var n := |ids| - 1;
    if i < n {
      WrittenAt(ids[..n], base, i);
    }
  }

  /** After a write the table holds exactly one row per requested book: the
      row of `ids[i]` has position `i + 1`, so positions are dense from 1, and
      no other row survives. */
  lemma WrittenPairs(ids: seq<int>, base: int)
    ensures forall k :: k in Written(ids, base) <==> base <= k < base + |ids|
    ensures forall i :: 0 <= i < |ids| ==> Written(ids, base)[base + i] == Entry(base + i, ids[i], i + 1)
  {
    forall i | 0 <= i < |ids| ensures Written(ids, base)[base + i] == Entry(base + i, ids[i], i + 1) {
      WrittenAt(ids, base, i);
    }
  }

  /** The table invariant: rows are stored under their ids, ids are below the
      next id to hand out, and a book is in the showcase at most once. */
  predicate Wellformed(rows: map<int, Entry>, nextId: int)
  {
    (forall k :: k in rows ==> rows[k].id == k && k < nextId) &&
    (forall a, b :: a in rows && b in rows && rows[a].bookId == rows[b].bookId ==> a == b)
  }

  /** Writing a list without repetitions keeps the table well formed. */
  lemma WrittenWellformed(ids: seq<int>, base: int)
    requires Distinct(ids)
    ensures Wellformed(Written(ids, base), base + |ids|)
  {
    var w := Written(ids, base);
    forall k | k in w ensures w[k].id == k && k < base + |ids| {
      WrittenAt(ids, base, k - base);
    }
    forall a, b | a in w && b in w && w[a].bookId == w[b].bookId ensures a == b {
      WrittenAt(ids, base, a - base);
      WrittenAt(ids, base, b - base);
    }
  }

  function PositionKey(e: Entry): Key
  {
    IntKey(e.position)
  }

  function InCatalog(books: Catalog): Entry -> bool
  {
    (e: Entry) => e.bookId in books
  }

  function BookOf(books: Catalog): int -> Book
  {
    (id: int) => if id in books then books[id] else Book(id, "", None, [])
  }

  function EntryBook(books: Catalog): Entry -> Book
  {
    (e: Entry) => BookOf(books)(e.bookId)
  }

  /** `get_showcase_books`: the books of the showcase rows (joined with the
      catalogue), ordered by position. */
  function ShowcaseBooks(rows: map<int, Entry>, books: Catalog): seq<Book>
  {
    MapSeq(Filter(SortBy(Rows(rows), PositionKey, false), InCatalog(books)), EntryBook(books))
  }

  /** The rows of a write, listed by id, are already in position order. */
  lemma WrittenRows(ids: seq<int>, base: int)
    ensures var rs := Rows(Written(ids, base));
      |rs| == |ids| && forall i :: 0 <= i < |ids| ==> rs[i] == Entry(base + i, ids[i], i + 1)
  {
    var w := Written(ids, base);
    assert w.Keys == Interval(base, |ids|) by {
      assert forall k :: k in w.Keys <==> k in Interval(base, |ids|);
    }
    assert |Rows(w)| == |ids|;
    forall i | 0 <= i < |ids| ensures Rows(w)[i] == Entry(base + i, ids[i], i + 1) {
      RowsOfInterval(w, base, |ids|, i);
      WrittenAt(ids, base, i);
    }
  }

  /** Reading the showcase after writing `ids` gives the books of `ids`, in the
      order given. */
  lemma ReadAfterWrite(ids: seq<int>, base: int, books: Catalog)
    requires forall i :: 0 <= i < |ids| ==> ids[i] in books
    ensures ShowcaseBooks(Written(ids, base), books) == MapSeq(ids, BookOf(books))
  {
    var rs := Rows(Written(ids, base));
    WrittenRows(ids, base);
    PositionsSorted(rs);
    forall i | 0 <= i < |rs| ensures InCatalog(books)(rs[i]) {
    }
    calc {
      ShowcaseBooks(Written(ids, base), books);
      == { SortedUnchanged(rs, PositionKey, false); }
      MapSeq(Filter(rs, InCatalog(books)), EntryBook(books));
      == { FilterAll(rs, InCatalog(books)); }
      MapSeq(rs, EntryBook(books));
      == { EntryBooks(rs, ids, base, books); }
      MapSeq(ids, BookOf(books));
    }
  }

  /** Rows numbered 1, 2, ... are in position order. */
  lemma PositionsSorted(rs: seq<Entry>)
    requires forall i :: 0 <= i < |rs| ==> rs[i].position == i + 1
    ensures SortedBy(rs, PositionKey, false)
  {
    forall a, b | 0 <= a < b < |rs| ensures InOrder(PositionKey(rs[a]), PositionKey(rs[b]), false) {
      IntKeyOrder(rs[a].position, rs[b].position);
    }
  }

  /** The books of the written rows are the books of the requested ids. */
  lemma EntryBooks(rs: seq<Entry>, ids: seq<int>, base: int, books: Catalog)
    requires |rs| == |ids| && forall i :: 0 <= i < |ids| ==> rs[i] == Entry(base + i, ids[i], i + 1)
    ensures MapSeq(rs, EntryBook(books)) == MapSeq(ids, BookOf(books))
  {
  }

  /** With books stored under their ids, the read-back lists exactly the ids written. */
  lemma ReadAfterWriteIds(ids: seq<int>, base: int, books: Catalog)
    requires CatalogKeyed(books)
    requires forall i :: 0 <= i < |ids| ==> ids[i] in books
    ensures var bs := ShowcaseBooks(Written(ids, base), books);
      |bs| == |ids| && forall i :: 0 <= i < |ids| ==> bs[i].id == ids[i]
  {
    ReadAfterWrite(ids, base, books);
  }

  // ---------------------------------------------------------------------------
  // get_showcase's projection
  // ---------------------------------------------------------------------------

  function Short(b: Book): BookShort
  {
    BookShort(b.id, b.title, if b.authors == [] then None else Some(b.authors))
  }

  /** A short entry copies the book's id and title; its authors are absent
      exactly when the book has none. */
  lemma ShortSpec(b: Book)
    ensures Short(b).id == b.id && Short(b).title == b.title
    ensures Short(b).authors.None? <==> b.authors == []
    ensures Short(b).authors.Some? ==> Short(b).authors.value == b.authors
  {
  }

  /** The projection loop of `get_showcase`. */
  method ShortList(bs: seq<Book>) returns (resp: ShowcaseResponse)
    ensures resp.total == |resp.books| == |bs|
    ensures forall k :: 0 <= k < |bs| ==> resp.books[k] == Short(bs[k])
  {
    var shorts: seq<BookShort> := [];
    for i := 0 to |bs|
      invariant |shorts| == i
      invariant forall k :: 0 <= k < i ==> shorts[k] == Short(bs[k])
    {
      shorts := shorts + [Short(bs[i])];
    }
    resp := ShowcaseResponse(|shorts|, shorts);
  }

  // ---------------------------------------------------------------------------
  // The table
  // ---------------------------------------------------------------------------

  /** The `showcase` table; `nextId` is the id its sequence hands out next. */
  class ShowcaseTable {
    var rows: map<int, Entry>
    var nextId: int

    ghost predicate Valid()
      reads this
    {
      Wellformed(rows, nextId)
    }

    constructor ()
      ensures Valid() && rows == map[] && nextId == 1
    {
      rows := map[];
      nextId := 1;
    }

    /** `clear_showcase`. */
    method Clear()
      requires Valid()
      modifies this
      ensures Valid() && rows == map[] && nextId == old(nextId)
    {
      rows := map[];
    }

    /** `set_showcase_books`: delete every row, then insert `ids[i]` at
        position `i + 1`. The unique `book_id` column admits no repetition. */
    method SetBooks(ids: seq<int>)
      requires Valid() && Distinct(ids)
      modifies this
      ensures Valid()
      ensures rows == Written(ids, old(nextId)) && nextId == old(nextId) + |ids|
    {
      var base := nextId;
      rows := map[];
      for i := 0 to |ids|
        invariant rows == Written(ids[..i], base) && nextId == base + i
      {
        assert ids[..i + 1][..i] == ids[..i];
        rows := rows[nextId := Entry(nextId, ids[i], i + 1)];
        nextId := nextId + 1;
      }
      assert ids[..|ids|] == ids;
      WrittenWellformed(ids, base);
    }

    /** `get_showcase`: the showcase books by position, projected. */
    method GetShowcase(books: Catalog) returns (resp: ShowcaseResponse)
      ensures resp.total == |resp.books| == |ShowcaseBooks(rows, books)|
      ensures forall k :: 0 <= k < |resp.books| ==> resp.books[k] == Short(ShowcaseBooks(rows, books)[k])
    {
      resp := ShortList(ShowcaseBooks(rows, books));
    }

    /** `set_showcase`: 404 naming the first requested id that is not a book,
        with the table untouched; otherwise the de-duplicated ids replace the
        showcase, and the response is the showcase read back. */
    method SetShowcase(ids: seq<int>, books: Catalog) returns (r: Result<ShowcaseResponse, Error>)
      requires Valid()
      modifies this
      ensures Valid()
      ensures r.Err? <==> FirstMissing(ids, books).Some?
      ensures r.Err? ==> r.error == ShowcaseBookNotFound(FirstMissing(ids, books).value) &&
                         rows == old(rows) && nextId == old(nextId)
      ensures r.Ok? ==> rows == Written(Dedup(ids), old(nextId)) &&
                        r.value.total == |r.value.books| == |Dedup(ids)| &&
                        forall k :: 0 <= k < |Dedup(ids)| ==> r.value.books[k] == Short(BookOf(books)(Dedup(ids)[k]))
    {
      var missing := FindMissing(ids, books);
      if missing.Some? {
        return Err(ShowcaseBookNotFound(missing.value));
      }
      var unique := DedupIds(ids);
      DedupDistinct(ids);
      SetBooks(unique);
      assert forall i :: 0 <= i < |unique| ==> unique[i] in books by {
        forall i | 0 <= i < |unique| ensures unique[i] in books {
          assert unique[i] in ids;
        }
      }
      ReadAfterWrite(unique, old(nextId), books);
      var resp := GetShowcase(books);
      return Ok(resp);
    }
  }
}
