/** The users table. The database enforces a primary key on the id and
    unique indexes on email and phone; the model carries them as the table's
    invariant and answers a violating write with the driver's error. */
module UserRepository {
  import opened Base
  import opened UserModel
  import opened Decimal

  /** PostgreSQL refuses a negative LIMIT. */
  const NegativeLimit: Error := Driver("LIMIT must not be negative")

  /** Two rows that cannot both be stored: same id, same email or same phone. */
  predicate Conflicts(a: UserRow, b: UserRow)
  {
    a.userId == b.userId || (a.email.Some? && a.email == b.email) || (a.phone.Some? && a.phone == b.phone)
  }

  /** Whether storing `row` next to `rows` violates a key. */
  predicate Clashes(rows: seq<UserRow>, row: UserRow)
  {
    exists i :: 0 <= i < |rows| && Conflicts(rows[i], row)
  }

  /** The table's keys hold: no two rows conflict and no id is nil. */
  ghost predicate Keyed(rows: seq<UserRow>)
  {
    && (forall i, j :: 0 <= i < j < |rows| ==> !Conflicts(rows[i], rows[j]))
    && (forall i :: 0 <= i < |rows| ==> rows[i].userId != NilId)
  }

  /** Where the row with this id is. */
  function IndexOfId(rows: seq<UserRow>, id: nat): (r: Option<nat>)
    ensures r.Some? ==> r.value < |rows| && rows[r.value].userId == id
    ensures r.Some? ==> forall k :: 0 <= k < r.value ==> rows[k].userId != id
    ensures r.None? <==> forall k :: 0 <= k < |rows| ==> rows[k].userId != id
  {
    if rows == [] then None
    else if rows[0].userId == id then Some(0)
    else
      var r := IndexOfId(rows[1..], id);
      if r.None? then None else Some(r.value + 1)
  }

  /** Where the row with this email is. */
  function IndexOfEmail(rows: seq<UserRow>, email: string): (r: Option<nat>)
    ensures r.Some? ==> r.value < |rows| && rows[r.value].email == Some(email)
    ensures r.Some? ==> forall k :: 0 <= k < r.value ==> rows[k].email != Some(email)
    ensures r.None? <==> forall k :: 0 <= k < |rows| ==> rows[k].email != Some(email)
  {
    if rows == [] then None
    else if rows[0].email == Some(email) then Some(0)
    else
      var r := IndexOfEmail(rows[1..], email);
      if r.None? then None else Some(r.value + 1)
  }

  /** In a keyed table a row with a given id is the only one with that id. */
  lemma IdIsKey(rows: seq<UserRow>, i: nat)
    requires Keyed(rows) && i < |rows|
    ensures IndexOfId(rows, rows[i].userId) == Some(i)
  {
  }

  /** In a keyed table a row with a given email is the only one with that email. */
  lemma EmailIsKey(rows: seq<UserRow>, i: nat)
    requires Keyed(rows) && i < |rows| && rows[i].email.Some?
    ensures IndexOfEmail(rows, rows[i].email.value) == Some(i)
  {
    var r := IndexOfEmail(rows, rows[i].email.value);
    if r.value < i {
      assert Conflicts(rows[r.value], rows[i]);
    }
  }

  /** `OFFSET offset LIMIT limit` over the rows in table order: the OFFSET is
      written only when positive, so a non-positive offset skips nothing. */
  function Window(rows: seq<UserRow>, offset: int, limit: nat): (w: seq<UserRow>)
    ensures |w| <= limit
    ensures offset >= 0 && offset + limit <= |rows| ==> w == rows[offset..offset + limit]
    ensures 0 <= offset < |rows| ==> w == rows[offset..if offset + limit < |rows| then offset + limit else |rows|]
    ensures offset <= 0 ==> w == rows[..if limit < |rows| then limit else |rows|]
    ensures offset >= |rows| ==> w == []
  {
    var start := if offset <= 0 then 0 else if offset < |rows| then offset else |rows|;
    var end := if limit < |rows| - start then start + limit else |rows|;
    rows[start..end]
  }

  /** A page number so large that the offset wraps to 0 or below reads the
      first page again: page 2^62 + 1 with 4 per page gives offset 0, and
      page 2^63 - 1 with 10 per page gives offset -20. */
  lemma HugePageWrapsToFirstPage(rows: seq<UserRow>)
    ensures WrapInt64((4611686018427387905 - 1) * 4) == 0
    ensures WrapInt64((MaxInt64 - 1) * 10) == -20
    ensures Window(rows, WrapInt64((MaxInt64 - 1) * 10), 10) == Window(rows, 0, 10)
  {
  }

  /** Pages tile the table: row i is on page i / perPage + 1, at position i % perPage. */
  lemma PageOfRow(rows: seq<UserRow>, perPage: nat, i: nat)
    requires perPage > 0 && i < |rows|
    ensures var page := i / perPage + 1;
            var w := Window(rows, (page - 1) * perPage, perPage);
            i % perPage < |w| && w[i % perPage] == rows[i]
  {
    var offset := (i / perPage) * perPage;
    assert offset + i % perPage == i;
    assert (i / perPage + 1 - 1) * perPage == offset;
  }

  /** The table without the rows of one id, in the same order. */
  function Without(rows: seq<UserRow>, id: nat): (r: seq<UserRow>)
    ensures forall x :: x in r <==> x in rows && x.userId != id
    ensures |r| <= |rows|
  {
    if rows == [] then []
    else (if rows[0].userId == id then [] else [rows[0]]) + Without(rows[1..], id)
  }

  lemma {:induction false} WithoutKeepsKeys(rows: seq<UserRow>, id: nat)
    requires Keyed(rows)
    ensures Keyed(Without(rows, id))
  {
    if rows != [] {
      WithoutKeepsKeys(rows[1..], id);
      var rest := Without(rows[1..], id);
      if rows[0].userId != id {
        forall y | y in rest ensures !Conflicts(rows[0], y) {
          var k :| 0 <= k < |rows[1..]| && rows[1..][k] == y;
          assert rows[k + 1] == y;
        }
        ConsKeyed(rows[0], rest);
      }
    }
  }

  lemma ConsKeyed(h: UserRow, t: seq<UserRow>)
    requires Keyed(t) && h.userId != NilId && forall y :: y in t ==> !Conflicts(h, y)
    ensures Keyed([h] + t)
  {
    var r := [h] + t;
    forall i, j | 0 <= i < j < |r| ensures !Conflicts(r[i], r[j]) {
      assert r[j] == t[j - 1] && r[j] in t;
      if i > 0 {
        assert r[i] == t[i - 1];
      }
    }
  }

  class UserTable {
    var rows: seq<UserRow>

    constructor ()
      ensures rows == []
    {
      rows := [];
    }

    ghost predicate Valid()
      reads this
    {
      Keyed(rows)
    }

    /** userRepository.Create: runs the BeforeCreate hook on the record, then
        inserts its row unless the driver fails or a key is already taken. */
    method Create(u: User, freshId: nat, fault: Option<string>) returns (err: Option<Error>)
      requires Valid() && freshId != NilId
      modifies this, u
      ensures Valid()
      ensures u.Row() == WithDefaults(old(u.Row()), freshId)
      ensures err == if fault.Some? then Some(Driver(fault.value))
                     else if Clashes(old(rows), u.Row()) then Some(UniqueViolation)
                     else None
      ensures rows == if err.None? then old(rows) + [u.Row()] else old(rows)
    {
      var _ := u.BeforeCreate(freshId);
      if fault.Some? {
        return Some(Driver(fault.value));
      }
      var row := u.Row();
      if Clashes(rows, row) {
        return Some(UniqueViolation);
      }
      rows := rows + [row];
      err := None;
    }

    /** userRepository.FindAll: the total number of users and the page that
        starts after (page - 1) * perPage rows and holds at most perPage rows.
        The offset is a Go int, so the product wraps around at 64 bits. */
    method FindAll(page: int, perPage: int, countFault: Option<string>, findFault: Option<string>)
      returns (r: Result<(seq<UserRow>, nat)>)
      ensures countFault.Some? ==> r == Err(Driver(countFault.value))
      ensures countFault.None? && findFault.Some? ==> r == Err(Driver(findFault.value))
      ensures countFault.None? && findFault.None? && perPage < 0 ==> r == Err(NegativeLimit)
      ensures countFault.None? && findFault.None? && perPage >= 0 ==> r.Ok?
      ensures r.Ok? ==> perPage >= 0 && r.value.1 == |rows|
      ensures r.Ok? ==> r.value.0 == Window(rows, WrapInt64((page - 1) * perPage), perPage)
      ensures r.Ok? && MinInt64 <= (page - 1) * perPage <= MaxInt64 ==>
                r.value.0 == Window(rows, (page - 1) * perPage, perPage)
    {
      var offset := WrapInt64((page - 1) * perPage);
      if countFault.Some? {
        return Err(Driver(countFault.value));
      }
      var total := |rows|;
      if findFault.Some? {
        return Err(Driver(findFault.value));
      }
      if perPage < 0 {
        return Err(NegativeLimit);
      }
      r := Ok((Window(rows, offset, perPage), total));
    }

    /** userRepository.FindByID: a new record holding the row with that id, or not-found. */
    method FindByID(id: nat, fault: Option<string>) returns (r: Result<User>)
      ensures fault.Some? ==> r == Err(Driver(fault.value))
      ensures fault.None? ==> (r == Err(RecordNotFound) <==> IndexOfId(rows, id).None?)
      ensures fault.None? && IndexOfId(rows, id).Some? ==> r.Ok?
      ensures r.Ok? ==> fresh(r.value) && IndexOfId(rows, id).Some? && r.value.Row() == rows[IndexOfId(rows, id).value]
    {
      if fault.Some? {
        return Err(Driver(fault.value));
      }
      var i := IndexOfId(rows, id);
      if i.None? {
        return Err(RecordNotFound);
      }
      var u := new User.FromRow(rows[i.value]);
      r := Ok(u);
    }

    /** userRepository.FindByEmail: a new record holding the row with that email, or not-found. */
    method FindByEmail(email: string, fault: Option<string>) returns (r: Result<User>)
      ensures fault.Some? ==> r == Err(Driver(fault.value))
      ensures fault.None? ==> (r == Err(RecordNotFound) <==> IndexOfEmail(rows, email).None?)
      ensures fault.None? && IndexOfEmail(rows, email).Some? ==> r.Ok?
      ensures r.Ok? ==> fresh(r.value) && IndexOfEmail(rows, email).Some? && r.value.Row() == rows[IndexOfEmail(rows, email).value]
    {
      if fault.Some? {
        return Err(Driver(fault.value));
      }
      var i := IndexOfEmail(rows, email);
      if i.None? {
        return Err(RecordNotFound);
      }
      var u := new User.FromRow(rows[i.value]);
      r := Ok(u);
    }

    /** userRepository.Update (GORM's Save): the row with the record's id is
        replaced by the record, all columns; a record whose id is not stored
        is inserted with the defaults BeforeCreate would give it (a nil id
        takes the fresh key and an empty status becomes "active"). For a
        non-nil id GORM's fallback insert skips the hook, but keeps the id
        and fills the status from the column default, to the same row. */
    method Update(u: User, freshId: nat, fault: Option<string>) returns (err: Option<Error>)
      requires Valid() && freshId != NilId
      modifies this, u
      ensures Valid()
      ensures old(IndexOfId(rows, u.userId)).Some? ==>
                var i := old(IndexOfId(rows, u.userId)).value;
                && u.Row() == old(u.Row())
                && err == (if fault.Some? then Some(Driver(fault.value))
                           else if Clashes(old(rows[..i] + rows[i + 1..]), u.Row()) then Some(UniqueViolation)
                           else None)
                && rows == if err.None? then old(rows)[i := u.Row()] else old(rows)
      ensures old(IndexOfId(rows, u.userId)).None? ==>
                && u.Row() == WithDefaults(old(u.Row()), freshId)
                && rows == if err.None? then old(rows) + [u.Row()] else old(rows)
    {
      var i := IndexOfId(rows, u.userId);
      if i.None? {
        err := Create(u, freshId, fault);
        return;
      }
      if fault.Some? {
        return Some(Driver(fault.value));
      }
      var row := u.Row();
      var others := rows[..i.value] + rows[i.value + 1..];
      if Clashes(others, row) {
        return Some(UniqueViolation);
      }
      ReplaceKeepsKeys(rows, i.value, row);
      rows := rows[i.value := row];
      err := None;
    }

    /** userRepository.Delete: removes exactly the rows with that id. */
    method Delete(id: nat, fault: Option<string>) returns (err: Option<Error>)
      requires Valid()
      modifies this
      ensures Valid()
      ensures err == Outcome(fault)
      ensures rows == if fault.None? then Without(old(rows), id) else old(rows)
    {
      err := Outcome(fault);
      if fault.None? {
        WithoutKeepsKeys(rows, id);
        rows := Without(rows, id);
      }
    }
  }

  /** A stored row clashes with none of the other rows, so saving it back with
      the same id, email and phone never violates a key. */
  lemma StoredRowFits(rows: seq<UserRow>, i: nat, row: UserRow)
    requires Keyed(rows) && i < |rows|
    requires row.userId == rows[i].userId && row.email == rows[i].email && row.phone == rows[i].phone
    ensures !Clashes(rows[..i] + rows[i + 1..], row)
  {
    var others := rows[..i] + rows[i + 1..];
    forall k | 0 <= k < |others| ensures !Conflicts(others[k], row) {
      if k < i {
        assert others[k] == rows[k];
      } else {
        assert others[k] == rows[k + 1];
      }
    }
  }

  /** Replacing a row by one that clashes with none of the others keeps the keys. */
  lemma ReplaceKeepsKeys(rows: seq<UserRow>, i: nat, row: UserRow)
    requires Keyed(rows) && i < |rows| && row.userId == rows[i].userId
    requires !Clashes(rows[..i] + rows[i + 1..], row)
    ensures Keyed(rows[i := row])
  {
    var others := rows[..i] + rows[i + 1..];
    var r := rows[i := row];
    forall a, b | 0 <= a < b < |r| ensures !Conflicts(r[a], r[b]) {
      if a == i {
        var k := if b < i then b else b - 1;
        assert others[k] == rows[b];
        assert !Conflicts(others[k], row);
      } else if b == i {
        var k := if a < i then a else a - 1;
        assert others[k] == rows[a];
        assert !Conflicts(others[k], row);
      }
    }
  }
}
