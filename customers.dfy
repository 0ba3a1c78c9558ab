/** The second customer registry (`app/customers`): customers with text ids
    `C0`, `C1`, ..., numbered by the count of customers at the time of the
    insert, an edit that overwrites every contact field, and a listing filtered
    by id and by name. The table is a list in insertion order. */
module Registry {
  import opened Outcomes
  import opened Text
  import opened Sequences

  datatype RegistryCustomer = RegistryCustomer(
    id: string,
    name: string,
    address: string,
    zip: int,
    city: string,
    phone: int,
    email: string)

  /** The body of an add request. */
  datatype CustomerCreate = CustomerCreate(name: string, address: string, zip: int, city: string, phone: int, email: string)

  /** The body of an edit request: the id of the customer and all its fields. */
  datatype CustomerEdit = CustomerEdit(id: string, name: string, address: string, zip: int, city: string, phone: int, email: string)

  /** A listed customer. */
  datatype CustomerShort = CustomerShort(id: string, name: string, address: string, zip: int, city: string)

  /** The id given to the customer added when the table holds `n` customers. */
  function IdFor(n: nat): string
  {
    "C" + NatToString(n)
  }

  /** The number in an id of the form `C<digits>`, or -1 for any other text. */
  function IdNumber(id: string): int
  {
    if |id| >= 2 && id[0] == 'C' && IsDigits(id[1..]) then ParseNat(id[1..]) else -1
  }

  /** An id reads back as the count it was made from. */
  lemma IdNumberOf(n: nat)
    ensures IdNumber(IdFor(n)) == n
  {
    assert IdFor(n)[1..] == NatToString(n);
    ParseNatToString(n);
  }

  lemma IdForInjective(a: nat, b: nat)
    ensures IdFor(a) == IdFor(b) ==> a == b
  {
    IdNumberOf(a);
    IdNumberOf(b);
  }

  /** The table as `add_customer` builds it: the customer at position `i` has id `C<i>`. */
  predicate Numbered(rows: seq<RegistryCustomer>)
  {
    forall i :: 0 <= i < |rows| ==> rows[i].id == IdFor(i)
  }

  /** In a numbered table no two customers share an id. */
  lemma NumberedIdsDistinct(rows: seq<RegistryCustomer>)
    requires Numbered(rows)
    ensures forall i, j :: 0 <= i < j < |rows| ==> rows[i].id != rows[j].id
  {
    forall i, j | 0 <= i < j < |rows| ensures rows[i].id != rows[j].id {
      IdForInjective(i, j);
    }
  }

  /** In a numbered table a customer is determined by its id. */
  lemma NumberedSameId(rows: seq<RegistryCustomer>, c: RegistryCustomer, d: RegistryCustomer)
    requires Numbered(rows) && c in rows && d in rows && c.id == d.id
    ensures c == d
  {
    var i :| 0 <= i < |rows| && rows[i] == c;
    var j :| 0 <= j < |rows| && rows[j] == d;
    IdForInjective(i, j);
  }

  /** The number in a customer's id. */
  function Number(c: RegistryCustomer): int
  {
    IdNumber(c.id)
  }

  /** In a numbered table the ids' numbers increase along the list. */
  lemma NumberedIncreasing(rows: seq<RegistryCustomer>)
    requires Numbered(rows)
    ensures IncreasingBy(rows, Number)
  {
    forall i | 0 <= i < |rows| ensures IdNumber(rows[i].id) == i {
      IdNumberOf(i);
    }
  }

  function NewCustomer(data: CustomerCreate, count: nat): RegistryCustomer
  {
    RegistryCustomer(IdFor(count), data.name, data.address, data.zip, data.city, data.phone, data.email)
  }

  /** The row an edit writes: every field from the request. */
  function Overwritten(data: CustomerEdit): RegistryCustomer
  {
    RegistryCustomer(data.id, data.name, data.address, data.zip, data.city, data.phone, data.email)
  }

  /** The position of the first customer with id `id`, as `.first()` finds it. */
  function FirstWithId(rows: seq<RegistryCustomer>, id: string): (r: Option<nat>)
    ensures r.None? <==> forall i :: 0 <= i < |rows| ==> rows[i].id != id
    ensures r.Some? ==> r.value < |rows| && rows[r.value].id == id &&
                        forall i :: 0 <= i < r.value ==> rows[i].id != id
  {
    if rows == [] then None
    else if rows[0].id == id then Some(0)
    else
      var rest := FirstWithId(rows[1..], id);
      assert forall i :: 1 <= i < |rows| ==> rows[i] == rows[1..][i - 1];
      if rest.None? then None else Some(rest.value + 1)
  }

  /** The table after an edit, or `None` when no customer has the id: the
      source then dereferences a missing row and the request fails. */
  function Edited(rows: seq<RegistryCustomer>, data: CustomerEdit): Option<seq<RegistryCustomer>>
  {
    match FirstWithId(rows, data.id)
    case None => None
    case Some(k) => Some(rows[k := Overwritten(data)])
  }

  /** An edit fails exactly when no customer has the id; otherwise it
      overwrites that customer with the request, changes no other customer,
      and keeps the table numbered. */
  lemma EditRules(rows: seq<RegistryCustomer>, data: CustomerEdit)
    requires Numbered(rows)
    ensures var r := Edited(rows, data);
      (r.None? <==> forall i :: 0 <= i < |rows| ==> rows[i].id != data.id) &&
      (r.Some? ==>
        |r.value| == |rows| && Numbered(r.value) &&
        (forall i :: 0 <= i < |rows| ==>
          r.value[i] == if rows[i].id == data.id then Overwritten(data) else rows[i]))
  {
    NumberedIdsDistinct(rows);
  }

  /** Repeating an edit changes nothing more. */
  lemma EditIdempotent(rows: seq<RegistryCustomer>, data: CustomerEdit)
    requires Edited(rows, data).Some?
    ensures Edited(Edited(rows, data).value, data) == Edited(rows, data)
  {
    var k := FirstWithId(rows, data.id).value;
    var once := rows[k := Overwritten(data)];
    assert forall i :: 0 <= i < k ==> once[i] == rows[i];
    assert once[k].id == data.id;
    assert FirstWithId(once, data.id) == Some(k);
    assert once[k := Overwritten(data)] == once;
  }

  /** `Customer.id ILIKE '%q%'`. */
  function IdMatches(q: string): RegistryCustomer -> bool
  {
    (c: RegistryCustomer) => ILikeContains(c.id, q)
  }

  /** `Customer.name ILIKE '%q%'`. */
  function NameMatches(q: string): RegistryCustomer -> bool
  {
    (c: RegistryCustomer) => ILikeContains(c.name, q)
  }

  /** `get_customers_by_id`. */
  function ById(rows: seq<RegistryCustomer>, q: string): seq<RegistryCustomer>
  {
    Filter(rows, IdMatches(q))
  }

  /** `get_customers_by_name`. */
  function ByName(rows: seq<RegistryCustomer>, q: string): seq<RegistryCustomer>
  {
    Filter(rows, NameMatches(q))
  }

  function IdSet(cs: seq<RegistryCustomer>): set<string>
  {
    set c | c in cs :: c.id
  }

  function HasIdIn(ids: set<string>): RegistryCustomer -> bool
  {
    (c: RegistryCustomer) => c.id in ids
  }

  /** The customers of the id list whose id is in both lists, in the id
      list's order. A filter that is not given lists every customer. */
  function Selected(rows: seq<RegistryCustomer>, id: Option<string>, name: Option<string>): seq<RegistryCustomer>
  {
    var idList := if id.Some? then ById(rows, id.value) else rows;
    var nameList := if name.Some? then ByName(rows, name.value) else rows;
    Filter(idList, HasIdIn(IdSet(idList) * IdSet(nameList)))
  }

  function Short(c: RegistryCustomer): CustomerShort
  {
    CustomerShort(c.id, c.name, c.address, c.zip, c.city)
  }

  /** `get_customers`. */
  function GetCustomers(rows: seq<RegistryCustomer>, id: Option<string>, name: Option<string>): seq<CustomerShort>
  {
    MapSeq(Selected(rows, id, name), Short)
  }

  /** With neither filter every customer is listed, in table order. */
  lemma NoFilterListsAll(rows: seq<RegistryCustomer>)
    ensures GetCustomers(rows, None, None) == MapSeq(rows, Short)
  {
    var ids := IdSet(rows) * IdSet(rows);
    forall i | 0 <= i < |rows| ensures HasIdIn(ids)(rows[i]) {
      assert rows[i] in rows;
    }
    FilterAll(rows, HasIdIn(ids));
  }

  /** Every listed customer is on the id filter's list. */
  lemma SelectedWithinIdList(rows: seq<RegistryCustomer>, id: Option<string>, name: Option<string>)
    ensures forall c :: c in Selected(rows, id, name) ==>
      c in (if id.Some? then ById(rows, id.value) else rows)
  {
  }

  /** In a numbered table a customer is listed exactly when it passes both the
      id filter and the name filter. */
  lemma SelectedSpec(rows: seq<RegistryCustomer>, id: Option<string>, name: Option<string>)
    requires Numbered(rows)
    ensures forall c :: c in Selected(rows, id, name) <==>
      c in rows && (id.None? || ILikeContains(c.id, id.value)) &&
      (name.None? || ILikeContains(c.name, name.value))
  {
    var idList := if id.Some? then ById(rows, id.value) else rows;
    var nameList := if name.Some? then ByName(rows, name.value) else rows;
    forall c | c in idList
      ensures c.id in IdSet(nameList) <==> c in nameList
    {
      if c.id in IdSet(nameList) {
        var d :| d in nameList && d.id == c.id;
        NumberedSameId(rows, c, d);
      }
    }
  }

  /** The selection keeps the table's order. */
  lemma SelectedIncreasing(rows: seq<RegistryCustomer>, id: Option<string>, name: Option<string>)
    requires Numbered(rows)
    ensures IncreasingBy(Selected(rows, id, name), Number)
  {
    NumberedIncreasing(rows);
    var idList := if id.Some? then ById(rows, id.value) else rows;
    var nameList := if name.Some? then ByName(rows, name.value) else rows;
    if id.Some? {
      FilterIncreasing(rows, Number, IdMatches(id.value));
    }
    FilterIncreasing(idList, Number, HasIdIn(IdSet(idList) * IdSet(nameList)));
  }

  /** The listing keeps the table's order: the numbers of the listed ids increase. */
  lemma SelectedInOrder(rows: seq<RegistryCustomer>, id: Option<string>, name: Option<string>)
    requires Numbered(rows)
    ensures var r := GetCustomers(rows, id, name);
      forall i, j :: 0 <= i < j < |r| ==> IdNumber(r[i].id) < IdNumber(r[j].id)
  {
    var s := Selected(rows, id, name);
    SelectedIncreasing(rows, id, name);
    var r := MapSeq(s, Short);
    forall i, j | 0 <= i < j < |r| ensures IdNumber(r[i].id) < IdNumber(r[j].id) {
      assert r[i] == Short(s[i]) && r[j] == Short(s[j]);
      assert Number(s[i]) < Number(s[j]);
    }
  }

  /** The `customer` table of this registry. */
  class CustomerRegistry {
    var rows: seq<RegistryCustomer>

    ghost predicate Valid()
      reads this
    {
      Numbered(rows)
    }

    constructor ()
      ensures Valid() && rows == []
    {
      rows := [];
    }

    /** `add_customer`: the id is `C` and the count of customers before the
        insert; the other fields come from the request. */
    method Add(data: CustomerCreate) returns (c: RegistryCustomer)
      requires Valid()
      modifies this
      ensures Valid()
      ensures c.id == IdFor(|old(rows)|) && IdNumber(c.id) == |old(rows)|
      ensures c.name == data.name && c.address == data.address && c.zip == data.zip &&
              c.city == data.city && c.phone == data.phone && c.email == data.email
      ensures rows == old(rows) + [c]
      ensures forall i :: 0 <= i < |old(rows)| ==> rows[i].id != c.id
    {
      var count := |rows|;
      c := NewCustomer(data, count);
      rows := rows + [c];
      IdNumberOf(count);
      NumberedIdsDistinct(rows);
    }

    /** `edit_customer`. */
    method Edit(data: CustomerEdit) returns (r: Option<RegistryCustomer>)
      requires Valid()
      modifies this
      ensures Valid()
      ensures r.None? <==> Edited(old(rows), data).None?
      ensures r.None? ==> rows == old(rows)
      ensures r.Some? ==> r.value == Overwritten(data) && rows == Edited(old(rows), data).value
    {
      var k := FirstWithId(rows, data.id);
      if k.None? {
        r := None;
        return;
      }
      EditRules(rows, data);
      rows := rows[k.value := Overwritten(data)];
      r := Some(Overwritten(data));
    }
  }
}
