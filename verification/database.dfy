/** The message store of src/database.go. The SQLite table `emails` is
    modelled by its rows in insertion order; `id` is the primary key and
    `created_at` is the clock reading, in seconds, taken when the row is
    inserted. The SQL engine itself is not modelled. */
module Database {
  import opened Wrappers
  import opened Types

  /** One row of the table: the six columns SaveEmail writes, plus created_at. */
  datatype Row = Row(
    id: string,
    from: string,
    to: string,
    subject: string,
    body: string,
    date: string,
    createdAt: int)

  /** The table contents, oldest insertion first. */
  datatype Store = Store(rows: seq<Row>)

  datatype StoreError =
    | Conflict(id: string)   // INSERT of an id that is already present
    | NotFound(id: string)   // QueryRow found no row (sql.ErrNoRows)

  predicate DistinctIds(rows: seq<Row>) {
    forall i, j | 0 <= i < j < |rows| :: rows[i].id != rows[j].id
  }

  /** The primary-key constraint holds. */
  predicate Valid(s: Store) {
    DistinctIds(s.rows)
  }

  /** The columns that survive a round trip through the table. */
  function ToEmail(row: Row): Email {
    Email(row.id, row.from, row.to, row.subject, row.body, row.date, map[])
  }

  /** What a saved email reads back as: everything but the headers. */
  function Stored(e: Email): Email {
    e.(headers := map[])
  }

  // ---------------------------------------------------------------------------
  // Lookup by primary key
  // ---------------------------------------------------------------------------

  function Find(rows: seq<Row>, id: string): (r: Option<Row>)
    ensures r.Some? ==> r.value in rows && r.value.id == id
    ensures r.None? <==> forall k | 0 <= k < |rows| :: rows[k].id != id
  {
    if |rows| == 0 then None
    else if rows[0].id == id then Some(rows[0])
    else Find(rows[1..], id)
  }

  /** Under the primary-key constraint the row Find returns is the only one. */
  lemma {:induction false} FindUnique(rows: seq<Row>, k: nat)
    requires DistinctIds(rows) && k < |rows|
    ensures Find(rows, rows[k].id) == Some(rows[k])
  {
    if k > 0 {
      assert rows[0].id != rows[k].id;
      assert rows[1..][k - 1] == rows[k];
      FindUnique(rows[1..], k - 1);
    }
  }

  lemma {:induction false} FindAppend(rows: seq<Row>, row: Row, id: string)
    ensures Find(rows + [row], id) ==
      if Find(rows, id).Some? then Find(rows, id)
      else if row.id == id then Some(row)
      else None
  {
    if |rows| > 0 {
      assert (rows + [row])[1..] == rows[1..] + [row];
      FindAppend(rows[1..], row, id);
    } else {
      assert rows + [row] == [row];
    }
  }

  // ---------------------------------------------------------------------------
  // Operations
  // ---------------------------------------------------------------------------

  /** CountEmails: SELECT COUNT(*). */
  function CountEmails(s: Store): nat {
    |s.rows|
  }

  /** The count is zero exactly when no id reads back. */
  lemma CountEmailsEmpty(s: Store)
    ensures CountEmails(s) == 0 <==> forall id :: GetEmailByID(s, id).Failure?
  {
    if |s.rows| > 0 {
      assert GetEmailByID(s, s.rows[0].id).Success?;
    }
  }

  /** A table created by InitDB on a new location. */
  const Fresh := Store([])

  /** InitDB: CREATE TABLE IF NOT EXISTS keeps whatever an earlier run stored
      at the same location and creates an empty table otherwise. */
  function InitDB(existing: Option<Store>): (s: Store)
    ensures existing.None? ==> CountEmails(s) == 0
    ensures existing.Some? ==> CountEmails(s) == CountEmails(existing.value)
    ensures existing.Some? ==>
      forall id :: GetEmailByID(s, id) == GetEmailByID(existing.value, id)
  {
    match existing
    case None => Fresh
    case Some(table) => table
  }

  /** GetEmailByID: the record with that id, without headers, or NotFound. */
  function GetEmailByID(s: Store, id: string): (r: Result<Email, StoreError>)
    ensures r.Success? <==> exists k | 0 <= k < |s.rows| :: s.rows[k].id == id
    ensures r.Success? ==>
      exists k | 0 <= k < |s.rows| :: s.rows[k].id == id && r.value == ToEmail(s.rows[k])
    ensures r.Failure? ==> r.error == NotFound(id)
  {
    match Find(s.rows, id)
    case Some(row) => Success(ToEmail(row))
    case None => Failure(NotFound(id))
  }

  /** SaveEmail: INSERT of the six columns, with created_at taken from the
      clock reading `now`. A duplicate id violates the primary key; the table
      is then left as it was (the caller keeps `s`). */
  function SaveEmail(s: Store, e: Email, now: int): (r: Result<Store, StoreError>)
    ensures r.Failure? <==> GetEmailByID(s, e.id).Success?
    ensures r.Failure? ==> r.error == Conflict(e.id)
    ensures r.Success? ==> GetEmailByID(r.value, e.id) == Success(Stored(e))
    ensures r.Success? ==>
      forall id | id != e.id :: GetEmailByID(r.value, id) == GetEmailByID(s, id)
    ensures r.Success? ==> CountEmails(r.value) == CountEmails(s) + 1
    ensures r.Success? && Valid(s) ==> Valid(r.value)
  {
    if Find(s.rows, e.id).Some? then Failure(Conflict(e.id))
    else
      var row := Row(e.id, e.from, e.to, e.subject, e.body, e.date, now);
      assert forall id :: (Find(s.rows + [row], id) ==
        if Find(s.rows, id).Some? then Find(s.rows, id)
        else if row.id == id then Some(row) else None)
      by {
        forall id { FindAppend(s.rows, row, id); }
      }
      Success(Store(s.rows + [row]))
  }

  /** The rows whose id differs from `id`, in their original order. */
  function Remove(rows: seq<Row>, id: string): (r: seq<Row>)
    ensures |r| <= |rows|
    ensures forall k | 0 <= k < |r| :: r[k] in rows && r[k].id != id
  {
    if |rows| == 0 then []
    else if rows[0].id == id then Remove(rows[1..], id)
    else
      var tail := Remove(rows[1..], id);
      assert forall k | 0 <= k < |tail| :: tail[k] in rows[1..];
      [rows[0]] + tail
  }

  lemma {:induction false} RemoveFind(rows: seq<Row>, id: string, other: string)
    ensures Find(Remove(rows, id), other) == if other == id then None else Find(rows, other)
  {
    if |rows| > 0 {
      RemoveFind(rows[1..], id, other);
      if rows[0].id != id {
        assert ([rows[0]] + Remove(rows[1..], id))[1..] == Remove(rows[1..], id);
      }
    }
  }

  lemma {:induction false} RemoveAbsent(rows: seq<Row>, id: string)
    requires Find(rows, id).None?
    ensures Remove(rows, id) == rows
  {
    if |rows| > 0 {
      RemoveAbsent(rows[1..], id);
      assert rows == [rows[0]] + rows[1..];
    }
  }

  lemma {:induction false} RemoveDistinct(rows: seq<Row>, id: string)
    requires DistinctIds(rows)
    ensures DistinctIds(Remove(rows, id))
    ensures Find(rows, id).Some? ==> |Remove(rows, id)| == |rows| - 1
  {
    if |rows| > 0 {
      RemoveDistinct(rows[1..], id);
      var tail := Remove(rows[1..], id);
      if rows[0].id == id {
        RemoveAbsent(rows[1..], id);
      } else {
        forall k | 0 <= k < |tail|
          ensures tail[k].id != rows[0].id
        {
          var j :| 0 <= j < |rows[1..]| && rows[1..][j] == tail[k];
          assert rows[j + 1] == tail[k];
        }
      }
    }
  }

  /** DeleteEmail: DELETE ... WHERE id = ?. Removing an absent id is not an error. */
  function DeleteEmail(s: Store, id: string): (r: Store)
    ensures GetEmailByID(r, id).Failure?
    ensures forall other | other != id :: GetEmailByID(r, other) == GetEmailByID(s, other)
    ensures GetEmailByID(s, id).Failure? ==> r == s
    ensures Valid(s) ==> Valid(r)
    ensures Valid(s) && GetEmailByID(s, id).Success? ==> CountEmails(r) == CountEmails(s) - 1
  {
    assert forall other :: (Find(Remove(s.rows, id), other) ==
      if other == id then None else Find(s.rows, other))
    by {
      forall other { RemoveFind(s.rows, id, other); }
    }
    if Find(s.rows, id).None? then RemoveAbsent(s.rows, id); s
    else if Valid(s) then RemoveDistinct(s.rows, id); Store(Remove(s.rows, id))
    else Store(Remove(s.rows, id))
  }

  /** DeleteAllEmails: DELETE FROM emails. */
  function DeleteAllEmails(s: Store): (r: Store)
    ensures CountEmails(r) == 0
    ensures forall id :: GetEmailByID(r, id).Failure?
    ensures Valid(r)
  {
    Fresh
  }

  // ---------------------------------------------------------------------------
  // Listing, ORDER BY created_at DESC
  // ---------------------------------------------------------------------------

  ghost predicate NewestFirst(rows: seq<Row>) {
    forall i, j | 0 <= i < j < |rows| :: rows[i].createdAt >= rows[j].createdAt
  }

  /** Places `row` before the first row that is not newer than it. */
  function InsertByAge(row: Row, sorted: seq<Row>): (r: seq<Row>)
    ensures multiset(r) == multiset(sorted) + multiset{row}
    ensures |r| == |sorted| + 1
  {
    if |sorted| == 0 || row.createdAt >= sorted[0].createdAt then [row] + sorted
    else
      assert sorted == [sorted[0]] + sorted[1..];
      [sorted[0]] + InsertByAge(row, sorted[1..])
  }

  lemma {:induction false} InsertByAgeOrder(row: Row, sorted: seq<Row>)
    requires NewestFirst(sorted)
    ensures NewestFirst(InsertByAge(row, sorted))
  {
    if |sorted| > 0 && row.createdAt < sorted[0].createdAt {
      var tail := InsertByAge(row, sorted[1..]);
      InsertByAgeOrder(row, sorted[1..]);
      forall k | 0 <= k < |tail|
        ensures sorted[0].createdAt >= tail[k].createdAt
      {
        assert tail[k] in multiset(sorted[1..]) + multiset{row};
      }
    }
  }

  lemma {:induction false} InsertByAgeDistinct(row: Row, sorted: seq<Row>)
    requires DistinctIds(sorted)
    requires forall k | 0 <= k < |sorted| :: sorted[k].id != row.id
    ensures DistinctIds(InsertByAge(row, sorted))
  {
    if |sorted| > 0 && row.createdAt < sorted[0].createdAt {
      var tail := InsertByAge(row, sorted[1..]);
      InsertByAgeDistinct(row, sorted[1..]);
      forall k | 0 <= k < |tail|
        ensures sorted[0].id != tail[k].id
      {
        assert tail[k] in multiset(sorted[1..]) + multiset{row};
      }
    }
  }

  /** The rows newest first. Rows with equal created_at keep no order the
      table promises; this model lists the later insertion first. */
  function SortByAge(rows: seq<Row>): (r: seq<Row>)
    ensures multiset(r) == multiset(rows)
    ensures |r| == |rows|
  {
    if |rows| == 0 then []
    else
      var n := |rows| - 1;
      assert rows == rows[..n] + [rows[n]];
      InsertByAge(rows[n], SortByAge(rows[..n]))
  }

  lemma {:induction false} SortByAgeOrder(rows: seq<Row>)
    ensures NewestFirst(SortByAge(rows))
    ensures DistinctIds(rows) ==> DistinctIds(SortByAge(rows))
  {
    if |rows| > 0 {
      var n := |rows| - 1;
      var prefix := SortByAge(rows[..n]);
      SortByAgeOrder(rows[..n]);
      InsertByAgeOrder(rows[n], prefix);
      if DistinctIds(rows) {
        forall k | 0 <= k < |prefix|
          ensures prefix[k].id != rows[n].id
        {
          assert prefix[k] in multiset(rows[..n]);
          var j :| 0 <= j < n && rows[..n][j] == prefix[k];
          assert rows[j] == prefix[k];
        }
        InsertByAgeDistinct(rows[n], prefix);
      }
    }
  }

  /** GetAllEmails: SELECT ... ORDER BY created_at DESC. */
  function GetAllEmails(s: Store): (r: seq<Email>)
    ensures |r| == CountEmails(s)
  {
    var sorted := SortByAge(s.rows);
    seq(|sorted|, i requires 0 <= i < |sorted| => ToEmail(sorted[i]))
  }

  /** The clock reading a stored id was inserted at. */
  function CreatedAt(s: Store, id: string): int
    requires Find(s.rows, id).Some?
  {
    Find(s.rows, id).value.createdAt
  }

  /** Under the primary-key constraint each listed row is the one stored
      under its id. */
  lemma SortedRowIsStored(s: Store, i: nat)
    requires Valid(s) && i < |SortByAge(s.rows)|
    ensures Find(s.rows, SortByAge(s.rows)[i].id) == Some(SortByAge(s.rows)[i])
  {
    var sorted := SortByAge(s.rows);
    assert sorted[i] in multiset(s.rows);
    var k :| 0 <= k < |s.rows| && s.rows[k] == sorted[i];
    FindUnique(s.rows, k);
  }

  /** Every listed record is a stored one, exactly as GetEmailByID returns it. */
  lemma GetAllEmailsSound(s: Store, i: nat)
    requires Valid(s) && i < |GetAllEmails(s)|
    ensures GetEmailByID(s, GetAllEmails(s)[i].id) == Success(GetAllEmails(s)[i])
    ensures Find(s.rows, GetAllEmails(s)[i].id).Some?
  {
    SortedRowIsStored(s, i);
  }

  /** Every stored record is listed. */
  lemma GetAllEmailsComplete(s: Store, id: string)
    requires GetEmailByID(s, id).Success?
    ensures exists i | 0 <= i < |GetAllEmails(s)| :: GetAllEmails(s)[i].id == id
  {
    var sorted := SortByAge(s.rows);
    var k :| 0 <= k < |s.rows| && s.rows[k].id == id;
    assert s.rows[k] in multiset(sorted);
    var i :| 0 <= i < |sorted| && sorted[i] == s.rows[k];
    assert GetAllEmails(s)[i].id == id;
  }

  /** No record is listed twice. */
  lemma GetAllEmailsDistinct(s: Store)
    requires Valid(s)
    ensures forall i, j | 0 <= i < j < |GetAllEmails(s)| ::
      GetAllEmails(s)[i].id != GetAllEmails(s)[j].id
  {
    SortByAgeOrder(s.rows);
    var sorted := SortByAge(s.rows);
    assert forall i | 0 <= i < |sorted| :: GetAllEmails(s)[i].id == sorted[i].id;
  }

  /** The listing is newest first by created_at. */
  lemma GetAllEmailsNewestFirst(s: Store)
    requires Valid(s)
    ensures forall i | 0 <= i < |GetAllEmails(s)| :: Find(s.rows, GetAllEmails(s)[i].id).Some?
    ensures forall i, j | 0 <= i < j < |GetAllEmails(s)| ::
      CreatedAt(s, GetAllEmails(s)[i].id) >= CreatedAt(s, GetAllEmails(s)[j].id)
  {
    var sorted := SortByAge(s.rows);
    var r := GetAllEmails(s);
    SortByAgeOrder(s.rows);
    forall i | 0 <= i < |r|
      ensures Find(s.rows, r[i].id) == Some(sorted[i])
    {
      SortedRowIsStored(s, i);
    }
  }

  /** A message saved at a later clock reading than every stored one is the
      first one listed. Rows saved within the same second are left in no
      particular order by the table, so that case is not covered. */
  lemma SaveThenListFirst(s: Store, e: Email, now: int)
    requires SaveEmail(s, e, now).Success?
    requires forall k | 0 <= k < |s.rows| :: s.rows[k].createdAt < now
    ensures |GetAllEmails(SaveEmail(s, e, now).value)| > 0
    ensures GetAllEmails(SaveEmail(s, e, now).value)[0] == Stored(e)
  {
    var t := SaveEmail(s, e, now).value;
    var row := t.rows[|t.rows| - 1];
    assert t.rows[..|t.rows| - 1] == s.rows;
    var prefix := SortByAge(s.rows);
    if |prefix| > 0 {
      assert prefix[0] in multiset(s.rows);
    }
    assert SortByAge(t.rows)[0] == row;
  }
}
