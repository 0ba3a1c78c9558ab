/** The customers of the loan ledger (`app/reports`): the `customers` table keyed
    by a serial integer id, with a unique email. Create refuses a known email,
    update writes only the fields the request sends, and get, update and delete
    answer 404 for an unknown id. A customer who has loans cannot be deleted. */
module LedgerCustomers {
  import opened Outcomes
  import opened Text
  import opened Calendar
  import opened Sequences
  import opened Library
  import Issues

  /** The `customers` table by id. */
  type Customers = map<int, Customer>

  /** The body of a create request. */
  datatype CustomerCreate = CustomerCreate(
    name: string,
    address: Option<string>,
    city: Option<string>,
    zipCode: Option<string>,
    email: string,
    phone: Option<string>)

  /** The body of an update request. `None` is a field the request does not
      send; a sent nullable field may carry `null` (`Some(None)`). */
  datatype CustomerUpdate = CustomerUpdate(
    name: Option<string>,
    address: Option<Option<string>>,
    city: Option<Option<string>>,
    zipCode: Option<Option<string>>,
    email: Option<string>,
    phone: Option<Option<string>>)

  /** Every row is stored under its own id, and ids below `nextId` are used. */
  predicate Keyed(rows: Customers, nextId: int)
  {
    forall k :: k in rows ==> rows[k].id == k && k < nextId
  }

  /** The unique index on `email`. */
  predicate EmailsUnique(rows: Customers)
  {
    forall a, b :: a in rows && b in rows && rows[a].email == rows[b].email ==> a == b
  }

  predicate EmailTaken(rows: Customers, email: string)
  {
    exists k :: k in rows && rows[k].email == email
  }

  /** Another customer than `id` already has `email`. */
  predicate EmailClash(rows: Customers, id: int, email: string)
  {
    exists k :: k in rows && k != id && rows[k].email == email
  }

  function NewCustomer(data: CustomerCreate, id: int, today: Date): Customer
  {
    Customer(id, data.name, data.address, data.city, data.zipCode, data.email, data.phone, today)
  }

  /** Create: 400 for a known email, else the new row under the next id, dated today. */
  function CreateOutcome(rows: Customers, data: CustomerCreate, newId: int, today: Date): Result<Customer, Error>
  {
    if EmailTaken(rows, data.email) then Err(EmailAlreadyExists)
    else Ok(NewCustomer(data, newId, today))
  }

  /** Create fails exactly for a known email; otherwise the row carries the
      request's fields, the new id and today's date. */
  lemma CreateRules(rows: Customers, data: CustomerCreate, newId: int, today: Date)
    ensures var r := CreateOutcome(rows, data, newId, today);
      (r.Err? <==> exists k :: k in rows && rows[k].email == data.email) &&
      (r.Err? ==> r.error == EmailAlreadyExists) &&
      (r.Ok? ==> r.value.id == newId && r.value.name == data.name && r.value.address == data.address &&
                 r.value.city == data.city && r.value.zipCode == data.zipCode &&
                 r.value.email == data.email && r.value.phone == data.phone &&
                 r.value.registrationDate == today)
  {
  }

  /** A successful create keeps the ids keyed and the emails unique. */
  lemma CreateKeepsInvariant(rows: Customers, nextId: int, data: CustomerCreate, today: Date)
    requires Keyed(rows, nextId) && EmailsUnique(rows)
    requires CreateOutcome(rows, data, nextId, today).Ok?
    ensures var c := CreateOutcome(rows, data, nextId, today).value;
      nextId !in rows && Keyed(rows[nextId := c], nextId + 1) && EmailsUnique(rows[nextId := c])
  {
  }

  /** Get: 404 for an unknown id. */
  function GetOutcome(rows: Customers, id: int): Result<Customer, Error>
  {
    if id in rows then Ok(rows[id]) else Err(CustomerNotFound)
  }

  lemma GetRules(rows: Customers, id: int)
    requires forall k :: k in rows ==> rows[k].id == k
    ensures var r := GetOutcome(rows, id);
      (r.Err? <==> forall k :: k in rows ==> rows[k].id != id) &&
      (r.Err? ==> r.error == CustomerNotFound) &&
      (r.Ok? ==> r.value in rows.Values && r.value.id == id)
  {
  }

  /** Writes the fields the request sends; the id and the registration date
      are not part of an update request. */
  function Patched(c: Customer, u: CustomerUpdate): Customer
  {
    c.(name := if u.name.Some? then u.name.value else c.name,
       address := if u.address.Some? then u.address.value else c.address,
       city := if u.city.Some? then u.city.value else c.city,
       zipCode := if u.zipCode.Some? then u.zipCode.value else c.zipCode,
       email := if u.email.Some? then u.email.value else c.email,
       phone := if u.phone.Some? then u.phone.value else c.phone)
  }

  /** The update that sends nothing. */
  const NoChange := CustomerUpdate(None, None, None, None, None, None)

  /** Update: 404 for an unknown id; the unique index refuses an email another
      customer has; otherwise the patched row. */
  function UpdateOutcome(rows: Customers, id: int, u: CustomerUpdate): Result<Customer, Error>
  {
    if id !in rows then Err(CustomerNotFound)
    else
      var c := Patched(rows[id], u);
      if EmailClash(rows, id, c.email) then Err(UniqueViolation) else Ok(c)
  }

  /** Update fails with 404 exactly for an unknown id. A successful update
      writes each sent field, keeps each field not sent, and never changes the
      id or the registration date. */
  lemma UpdateRules(rows: Customers, id: int, u: CustomerUpdate)
    requires EmailsUnique(rows)
    ensures var r := UpdateOutcome(rows, id, u);
      (r == Err(CustomerNotFound) <==> id !in rows) &&
      (r == Err(UniqueViolation) <==> id in rows && u.email.Some? && EmailClash(rows, id, u.email.value)) &&
      (r.Err? ==> r.error == CustomerNotFound || r.error == UniqueViolation) &&
      (r.Ok? ==>
        var old_ := rows[id];
        r.value.id == old_.id && r.value.registrationDate == old_.registrationDate &&
        r.value.name == (if u.name.Some? then u.name.value else old_.name) &&
        r.value.address == (if u.address.Some? then u.address.value else old_.address) &&
        r.value.city == (if u.city.Some? then u.city.value else old_.city) &&
        r.value.zipCode == (if u.zipCode.Some? then u.zipCode.value else old_.zipCode) &&
        r.value.email == (if u.email.Some? then u.email.value else old_.email) &&
        r.value.phone == (if u.phone.Some? then u.phone.value else old_.phone))
  {
    if id in rows && u.email.None? {
      OwnEmailNeverClashes(rows, id, u);
    }
  }

  /** In a table with unique emails, keeping one's own email never clashes. */
  lemma OwnEmailNeverClashes(rows: Customers, id: int, u: CustomerUpdate)
    requires EmailsUnique(rows) && id in rows && u.email.None?
    ensures UpdateOutcome(rows, id, u).Ok?
  {
  }

  /** An update that sends nothing leaves the row as it is. */
  lemma PatchNothing(c: Customer)
    ensures Patched(c, NoChange) == c
  {
  }

  /** Sending the same update twice is the same as sending it once. */
  lemma PatchIdempotent(c: Customer, u: CustomerUpdate)
    ensures Patched(Patched(c, u), u) == Patched(c, u)
  {
  }

  /** A successful update keeps the ids keyed and the emails unique. */
  lemma UpdateKeepsInvariant(rows: Customers, nextId: int, id: int, u: CustomerUpdate)
    requires Keyed(rows, nextId) && EmailsUnique(rows)
    requires UpdateOutcome(rows, id, u).Ok?
    ensures var c := UpdateOutcome(rows, id, u).value;
      Keyed(rows[id := c], nextId) && EmailsUnique(rows[id := c])
  {
  }

  /** Some loan, open or returned, refers to the customer. */
  predicate HasLoans(issues: Issues.Table, id: int)
  {
    exists k :: k in issues && issues[k].customerId == id
  }

  /** Every loan refers to a customer of the table (the foreign key `issues.customer_id`). */
  predicate LoansResolved(rows: Customers, issues: Issues.Table)
  {
    forall k :: k in issues ==> issues[k].customerId in rows
  }

  /** Delete: 404 for an unknown id. `Customer.issues` has no delete cascade, so
      deleting a customer who has loans makes the ORM set their `customer_id` to
      NULL, which the NOT NULL column refuses at commit. Otherwise the table
      without the row. */
  function DeleteOutcome(rows: Customers, issues: Issues.Table, id: int): Result<Customers, Error>
  {
    if id !in rows then Err(CustomerNotFound)
    else if HasLoans(issues, id) then Err(NotNullViolation)
    else Ok(rows - {id})
  }

  /** A delete succeeds exactly for a known customer without loans. It then
      removes only that row, keeps the ids keyed and the emails unique, and
      leaves every loan referring to a customer of the table. */
  lemma DeleteRules(rows: Customers, nextId: int, issues: Issues.Table, id: int)
    ensures var r := DeleteOutcome(rows, issues, id);
      (r == Err(CustomerNotFound) <==> id !in rows) &&
      (r == Err(NotNullViolation) <==> id in rows && exists k :: k in issues && issues[k].customerId == id) &&
      (r.Ok? ==>
        r.value.Keys == rows.Keys - {id} && (forall k :: k in r.value ==> r.value[k] == rows[k]) &&
        (Keyed(rows, nextId) ==> Keyed(r.value, nextId)) &&
        (EmailsUnique(rows) ==> EmailsUnique(r.value)) &&
        (LoansResolved(rows, issues) ==> LoansResolved(r.value, issues)))
  {
  }

  /** Once a customer is deleted its email is free for a new customer. */
  lemma DeleteFreesEmail(rows: Customers, id: int)
    requires EmailsUnique(rows) && id in rows
    ensures !EmailTaken(rows - {id}, rows[id].email)
  {
  }

  /** `name ILIKE '%q%'`. */
  function NameMatches(q: string): Customer -> bool
  {
    (c: Customer) => ILikeContains(c.name, q)
  }

  /** Search by name, in id order. */
  function Search(rows: Customers, q: string): seq<Customer>
  {
    Filter(Rows(rows), NameMatches(q))
  }

  /** Search returns each customer whose name contains the query (ignoring
      case), once. */
  lemma SearchSpec(rows: Customers, q: string)
    requires forall k :: k in rows ==> rows[k].id == k
    ensures var r := Search(rows, q);
      (forall c :: c in r <==> c in rows.Values && ILikeContains(c.name, q)) &&
      Distinct(r)
  {
    forall a, b | a in rows && b in rows && a != b ensures rows[a] != rows[b] {
      assert rows[a].id == a && rows[b].id == b;
    }
    RowsDistinct(rows);
    FilterDistinct(Rows(rows), NameMatches(q));
  }

  /** An empty query lists every customer. */
  lemma SearchEmptyIsAll(rows: Customers)
    ensures Search(rows, "") == Rows(rows)
  {
    forall i | 0 <= i < |Rows(rows)| ensures NameMatches("")(Rows(rows)[i]) {
      EmptyQueryMatchesAll(Rows(rows)[i].name);
    }
    FilterAll(Rows(rows), NameMatches(""));
  }

  /** The `customers` table with its id sequence. */
  class CustomerTable {
    var rows: Customers
    var nextId: int

    ghost predicate Valid()
      reads this
    {
      Keyed(rows, nextId) && EmailsUnique(rows)
    }

    constructor ()
      ensures Valid() && rows == map[] && nextId == 1
    {
      rows := map[];
      nextId := 1;
    }

    /** `create_customer`. */
    method Create(data: CustomerCreate, today: Date) returns (r: Result<Customer, Error>)
      requires Valid()
      modifies this
      ensures Valid()
      ensures r == CreateOutcome(old(rows), data, old(nextId), today)
      ensures r.Ok? ==> rows == old(rows)[old(nextId) := r.value] && nextId == old(nextId) + 1
      ensures r.Err? ==> rows == old(rows) && nextId == old(nextId)
    {
      if EmailTaken(rows, data.email) {
        r := Err(EmailAlreadyExists);
        return;
      }
      CreateKeepsInvariant(rows, nextId, data, today);
      var c := NewCustomer(data, nextId, today);
      rows := rows[nextId := c];
      nextId := nextId + 1;
      r := Ok(c);
    }

    /** `get_customer_by_id`. */
    method Get(id: int) returns (r: Result<Customer, Error>)
      requires Valid()
      ensures r.Err? <==> id !in rows
      ensures r.Err? ==> r.error == CustomerNotFound
      ensures r.Ok? ==> r.value == rows[id] && r.value.id == id
    {
      if id !in rows {
        r := Err(CustomerNotFound);
      } else {
        r := Ok(rows[id]);
      }
    }

    /** `update_customer`. */
    method Update(id: int, u: CustomerUpdate) returns (r: Result<Customer, Error>)
      requires Valid()
      modifies this
      ensures Valid()
      ensures r == UpdateOutcome(old(rows), id, u)
      ensures r.Ok? ==> rows == old(rows)[id := r.value]
      ensures r.Err? ==> rows == old(rows)
      ensures nextId == old(nextId)
    {
      r := UpdateOutcome(rows, id, u);
      if r.Ok? {
        UpdateKeepsInvariant(rows, nextId, id, u);
        rows := rows[id := r.value];
      }
    }

    /** `delete_customer`. */
    method Delete(id: int, issues: Issues.Table) returns (r: Result<(), Error>)
      requires Valid()
      modifies this
      ensures Valid()
      ensures r.Err? <==> DeleteOutcome(old(rows), issues, id).Err?
      ensures r.Err? ==> r.error == DeleteOutcome(old(rows), issues, id).error && rows == old(rows)
      ensures r.Ok? ==> rows == DeleteOutcome(old(rows), issues, id).value
      ensures nextId == old(nextId)
    {
      if id !in rows {
        r := Err(CustomerNotFound);
        return;
      }
      if HasLoans(issues, id) {
        // the commit refuses NULL in the loans' NOT NULL `customer_id`
        r := Err(NotNullViolation);
        return;
      }
      DeleteRules(rows, nextId, issues, id);
      rows := rows - {id};
      r := Ok(());
    }

    /** `search_customers`. */
    method SearchByName(q: string) returns (r: seq<Customer>)
      requires Valid()
      ensures forall c :: c in r <==> c in rows.Values && ILikeContains(c.name, q)
      ensures Distinct(r)
    {
      r := Search(rows, q);
      SearchSpec(rows, q);
    }
  }
}
