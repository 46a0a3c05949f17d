/** The `demirbaslar` table: insert, update and delete by id, lookup by id,
    the full listing and the LIKE search over the ten user columns. */
module Store {
  import opened Wrappers
  import opened Text
  import opened Dates
  import opened Like
  import opened Assets
  import opened Validation

  /** SQLite's largest rowid, 2^63 - 1. */
  const MaxRowId: nat := 0x7fff_ffff_ffff_ffff

  /** `rows` are kept in rowid order, the order of SQLite's table B-tree;
      `lastId` is the table's `sqlite_sequence` entry, the largest id
      AUTOINCREMENT has ever handed out (0 before the first insert). */
  datatype Store = Store(rows: seq<Asset>, lastId: nat)

  datatype StoreError =
    | Invalid(reason: ValidationError)  // a required column is empty
    | Full                              // AUTOINCREMENT has used up the rowid range

  /** The table as first created: no rows, no id issued. */
  const Empty: Store := Store([], 0)

  predicate Ascending(rows: seq<Asset>) {
    forall i, j :: 0 <= i < j < |rows| ==> rows[i].id < rows[j].id
  }

  predicate Descending(rows: seq<Asset>) {
    forall i, j :: 0 <= i < j < |rows| ==> rows[i].id > rows[j].id
  }

  /** The store invariant: ids are unique and in rowid order, every id is
      positive and none exceeds the sequence counter. */
  predicate Valid(s: Store) {
    && Ascending(s.rows)
    && forall i :: 0 <= i < |s.rows| ==> 1 <= s.rows[i].id <= s.lastId
  }

  /** `SELECT * FROM demirbaslar WHERE id = ?`. */
  function Lookup(s: Store, id: nat): (r: Option<Asset>)
    ensures r.Some? ==> r.value in s.rows && r.value.id == id
    ensures r.None? <==> forall i :: 0 <= i < |s.rows| ==> s.rows[i].id != id
  {
    FindRow(s.rows, id)
  }

  function FindRow(rows: seq<Asset>, id: nat): (r: Option<Asset>)
    ensures r.Some? ==> r.value in rows && r.value.id == id
    ensures r.None? <==> forall i :: 0 <= i < |rows| ==> rows[i].id != id
  {
    if rows == [] then None
    else if rows[0].id == id then Some(rows[0])
    else FindRow(rows[1..], id)
  }

  /** In a valid store each id names at most one row. */
  lemma LookupRow(s: Store, i: int)
    requires Valid(s) && 0 <= i < |s.rows|
    ensures Lookup(s, s.rows[i].id) == Some(s.rows[i])
  {
    var r := Lookup(s, s.rows[i].id);
    var k :| 0 <= k < |s.rows| && s.rows[k] == r.value;
    assert k == i;
  }

  /** The id AUTOINCREMENT assigns next. SQLite takes one more than the
      larger of `sqlite_sequence` and the largest rowid present; in a valid
      store that is one more than `lastId`. */
  function NextId(s: Store): (id: nat)
    requires Valid(s)
    ensures id > s.lastId
    ensures forall i :: 0 <= i < |s.rows| ==> s.rows[i].id < id
  {
    s.lastId + 1
  }

  /** Appending a row with the next id keeps the store valid and finds the
      new row under its id. */
  lemma AppendKeepsValid(s: Store, a: Asset)
    requires Valid(s) && a.id == s.lastId + 1
    ensures Valid(Store(s.rows + [a], a.id))
    ensures Lookup(Store(s.rows + [a], a.id), a.id) == Some(a)
  {
    var s' := Store(s.rows + [a], a.id);
    forall i, j | 0 <= i < j < |s'.rows| ensures s'.rows[i].id < s'.rows[j].id {
      assert s'.rows[i] == s.rows[i];
      if j < |s.rows| { assert s'.rows[j] == s.rows[j]; }
    }
    LookupRow(s', |s.rows|);
  }

  /** Appending a row with the next id keeps what every other id finds. */
  lemma AppendKeepsOthers(s: Store, a: Asset, j: nat)
    requires Valid(s) && a.id == s.lastId + 1 && j != a.id
    ensures Lookup(Store(s.rows + [a], a.id), j) == Lookup(s, j)
  {
    var s' := Store(s.rows + [a], a.id);
    AppendKeepsValid(s, a);
    if i :| 0 <= i < |s.rows| && s.rows[i].id == j {
      LookupRow(s, i);
      assert s'.rows[i] == s.rows[i];
      LookupRow(s', i);
    } else {
      forall k | 0 <= k < |s'.rows| ensures s'.rows[k].id != j {
        if k < |s.rows| { assert s'.rows[k] == s.rows[k]; }
      }
    }
  }

  /** `INSERT` after the create-time checks: the form is read, validated,
      and on success stored under a fresh id with the creation stamp `now`.
      On any error the store is returned unchanged. */
  function Create(s: Store, form: Form, now: DateTime): (out: (Store, Result<nat, StoreError>))
    requires Valid(s) && ValidForm(form) && ValidDateTime(now)
    ensures Valid(out.0)
    ensures out.1.Err? ==> out.0 == s
    ensures CheckForCreate(ReadForm(form)).Some? ==>
              out.1 == Err(Invalid(CheckForCreate(ReadForm(form)).value))
    ensures out.1 == Err(Full) <==> Admissible(ReadForm(form)) && s.lastId >= MaxRowId
    ensures out.1.Ok? <==> Admissible(ReadForm(form)) && s.lastId < MaxRowId
    ensures out.1.Ok? ==>
              var id := out.1.value;
              var s' := out.0;
              && id == s.lastId + 1
              && s'.lastId == id
              && |s'.rows| == |s.rows| + 1
              && s'.rows[..|s.rows|] == s.rows
              && Lookup(s', id) == Some(Asset(id, ReadForm(form), Timestamp(now)))
              && (forall j :: j != id ==> Lookup(s', j) == Lookup(s, j))
  {
    var f := ReadForm(form);
    match CheckForCreate(f)
    case Some(e) => (s, Err(Invalid(e)))
    case None =>
      if s.lastId >= MaxRowId then (s, Err(Full))
      else
        var id := NextId(s);
        var a := Asset(id, f, Timestamp(now));
        AppendKeepsValid(s, a);
        var s' := Store(s.rows + [a], id);
        assert s'.rows[..|s.rows|] == s.rows;
        assert forall j :: j != id ==> Lookup(s', j) == Lookup(s, j) by {
          forall j | j != id ensures Lookup(s', j) == Lookup(s, j) {
            AppendKeepsOthers(s, a, j);
          }
        }
        (s', Ok(id))
  }

  /** The rows with the ten user columns of row `id` replaced by `f`. */
  function OverwriteRows(rows: seq<Asset>, id: nat, f: Fields): (r: seq<Asset>)
    ensures |r| == |rows|
    ensures forall i :: 0 <= i < |rows| ==>
              && r[i].id == rows[i].id
              && r[i].createdAt == rows[i].createdAt
              && r[i].fields == (if rows[i].id == id then f else rows[i].fields)
  {
    if rows == [] then []
    else
      var head := if rows[0].id == id then rows[0].(fields := f) else rows[0];
      [head] + OverwriteRows(rows[1..], id, f)
  }

  /** Overwriting the columns of row `id` keeps the store valid, changes
      what `id` finds and nothing else; with no such row nothing changes. */
  lemma OverwriteRow(s: Store, id: nat, f: Fields)
    requires Valid(s)
    ensures var s' := Store(OverwriteRows(s.rows, id, f), s.lastId);
            && Valid(s')
            && (Lookup(s, id).None? ==> s' == s)
            && (Lookup(s, id).Some? ==> Lookup(s', id) == Some(Lookup(s, id).value.(fields := f)))
            && forall j :: j != id ==> Lookup(s', j) == Lookup(s, j)
  {
    var s' := Store(OverwriteRows(s.rows, id, f), s.lastId);
    assert Valid(s');
    if Lookup(s, id).None? {
      assert s'.rows == s.rows;
    } else {
      var k :| 0 <= k < |s.rows| && s.rows[k] == Lookup(s, id).value;
      LookupRow(s', k);
    }
    forall j | j != id ensures Lookup(s', j) == Lookup(s, j) {
      if i :| 0 <= i < |s.rows| && s.rows[i].id == j {
        LookupRow(s, i);
        LookupRow(s', i);
      }
    }
  }

  /** `UPDATE ... WHERE id = ?` after the update-time check (name and tag
      only). On success exactly the ten user columns of row `id` change; its
      id and creation stamp stay, every other row stays, and an id no row
      carries leaves the store as it was while still reporting success. */
  function Update(s: Store, id: nat, form: Form): (out: (Store, Option<ValidationError>))
    requires Valid(s) && ValidForm(form)
    ensures Valid(out.0)
    ensures out.1 == CheckForUpdate(ReadForm(form))
    ensures out.1.Some? ==> out.0 == s
    ensures Lookup(s, id).None? ==> out.0 == s
    ensures out.1.None? ==>
              && out.0.lastId == s.lastId
              && |out.0.rows| == |s.rows|
              && (Lookup(s, id).Some? ==>
                    Lookup(out.0, id) == Some(Asset(id, ReadForm(form), Lookup(s, id).value.createdAt)))
              && (forall j :: j != id ==> Lookup(out.0, j) == Lookup(s, j))
  {
    var f := ReadForm(form);
    match CheckForUpdate(f)
    case Some(e) => (s, Some(e))
    case None =>
      OverwriteRow(s, id, f);
      (Store(OverwriteRows(s.rows, id, f), s.lastId), None)
  }

  /** The tail of an ascending sequence is ascending and lies above the
      head. */
  lemma TailAscending(rows: seq<Asset>)
    requires Ascending(rows) && rows != []
    ensures Ascending(rows[1..])
    ensures forall a :: a in rows[1..] ==> rows[0].id < a.id
  {
    forall i, j | 0 <= i < j < |rows[1..]| ensures rows[1..][i].id < rows[1..][j].id {
      assert rows[1..][i] == rows[i + 1] && rows[1..][j] == rows[j + 1];
    }
    forall a | a in rows[1..] ensures rows[0].id < a.id {
      var k :| 0 <= k < |rows[1..]| && rows[1..][k] == a;
      assert rows[k + 1] == a;
    }
  }

  /** A row below every row of an ascending sequence can go in front. */
  lemma ConsAscending(x: Asset, rest: seq<Asset>)
    requires Ascending(rest)
    requires forall a :: a in rest ==> x.id < a.id
    ensures Ascending([x] + rest)
  {
    var r := [x] + rest;
    forall i, j | 0 <= i < j < |r| ensures r[i].id < r[j].id {
      assert r[j] == rest[j - 1];
      if i > 0 { assert r[i] == rest[i - 1]; }
    }
  }

  /** The rows without any row carrying `id`, order kept. */
  function RemoveRows(rows: seq<Asset>, id: nat): (r: seq<Asset>)
    ensures forall a :: a in r <==> a in rows && a.id != id
  {
    if rows == [] then []
    else
      assert rows == [rows[0]] + rows[1..];
      var rest := RemoveRows(rows[1..], id);
      if rows[0].id == id then rest else [rows[0]] + rest
  }

  lemma {:induction false} RemoveAscending(rows: seq<Asset>, id: nat)
    requires Ascending(rows)
    ensures Ascending(RemoveRows(rows, id))
  {
    if rows != [] {
      TailAscending(rows);
      RemoveAscending(rows[1..], id);
      if rows[0].id != id {
        ConsAscending(rows[0], RemoveRows(rows[1..], id));
      }
    }
  }

  /** Removing an id no row carries changes nothing. */
  lemma {:induction false} RemoveAbsent(rows: seq<Asset>, id: nat)
    requires forall i :: 0 <= i < |rows| ==> rows[i].id != id
    ensures RemoveRows(rows, id) == rows
  {
    if rows != [] {
      assert rows[0].id != id;
      RemoveAbsent(rows[1..], id);
      assert rows == [rows[0]] + rows[1..];
    }
  }

  /** Removing an id that one row of an ascending sequence carries drops
      exactly one row. */
  lemma {:induction false} RemovePresent(rows: seq<Asset>, id: nat, k: int)
    requires Ascending(rows) && 0 <= k < |rows| && rows[k].id == id
    ensures |RemoveRows(rows, id)| == |rows| - 1
  {
    TailAscending(rows);
    if k == 0 {
      forall i | 0 <= i < |rows[1..]| ensures rows[1..][i].id != id {
        assert rows[1..][i] in rows[1..];
      }
      RemoveAbsent(rows[1..], id);
    } else {
      assert rows[1..][k - 1] == rows[k];
      RemovePresent(rows[1..], id, k - 1);
    }
  }

  /** Removing row `id` keeps the store valid and makes `id` unknown. */
  lemma RemoveKeepsValid(s: Store, id: nat)
    requires Valid(s)
    ensures Valid(Store(RemoveRows(s.rows, id), s.lastId))
    ensures Lookup(Store(RemoveRows(s.rows, id), s.lastId), id).None?
  {
    var r := RemoveRows(s.rows, id);
    RemoveAscending(s.rows, id);
    forall i | 0 <= i < |r| ensures 1 <= r[i].id <= s.lastId && r[i].id != id {
      assert r[i] in r;
      var k :| 0 <= k < |s.rows| && s.rows[k] == r[i];
    }
  }

  /** Removing row `id` keeps what every other id finds. */
  lemma RemoveKeepsOthers(s: Store, id: nat, j: nat)
    requires Valid(s) && j != id
    ensures Lookup(Store(RemoveRows(s.rows, id), s.lastId), j) == Lookup(s, j)
  {
    var s' := Store(RemoveRows(s.rows, id), s.lastId);
    RemoveKeepsValid(s, id);
    if i :| 0 <= i < |s.rows| && s.rows[i].id == j {
      LookupRow(s, i);
      assert s.rows[i] in s'.rows;
      var k :| 0 <= k < |s'.rows| && s'.rows[k] == s.rows[i];
      LookupRow(s', k);
    } else {
      forall k | 0 <= k < |s'.rows| ensures s'.rows[k].id != j {
        assert s'.rows[k] in s'.rows;
      }
    }
  }

  /** Removing row `id` drops one row when it was there and is a no-op
      otherwise. */
  lemma RemoveCount(s: Store, id: nat)
    requires Valid(s)
    ensures var r := RemoveRows(s.rows, id);
            && |r| == (if Lookup(s, id).Some? then |s.rows| - 1 else |s.rows|)
            && (Lookup(s, id).None? ==> r == s.rows)
  {
    if Lookup(s, id).None? {
      RemoveAbsent(s.rows, id);
    } else {
      var k :| 0 <= k < |s.rows| && s.rows[k] == Lookup(s, id).value;
      RemovePresent(s.rows, id, k);
    }
  }

  /** `DELETE FROM demirbaslar WHERE id = ?`: exactly the row `id` goes,
      every other row and the sequence counter stay; an unknown id is a
      no-op. */
  function Delete(s: Store, id: nat): (s': Store)
    requires Valid(s)
    ensures Valid(s')
    ensures s'.lastId == s.lastId
    ensures Lookup(s', id).None?
    ensures forall j :: j != id ==> Lookup(s', j) == Lookup(s, j)
    ensures |s'.rows| == if Lookup(s, id).Some? then |s.rows| - 1 else |s.rows|
    ensures Lookup(s, id).None? ==> s' == s
  {
    RemoveKeepsValid(s, id);
    RemoveCount(s, id);
    var s' := Store(RemoveRows(s.rows, id), s.lastId);
    assert forall j :: j != id ==> Lookup(s', j) == Lookup(s, j) by {
      forall j | j != id ensures Lookup(s', j) == Lookup(s, j) {
        RemoveKeepsOthers(s, id, j);
      }
    }
    s'
  }

  /** The rows in reverse. */
  function Reverse(rows: seq<Asset>): (r: seq<Asset>)
    ensures |r| == |rows|
    ensures forall i :: 0 <= i < |rows| ==> r[i] == rows[|rows| - 1 - i]
  {
    if rows == [] then [] else Reverse(rows[1..]) + [rows[0]]
  }

  /** `SELECT * FROM demirbaslar ORDER BY id DESC`: every row once, newest
      id first. */
  function List(s: Store): (r: seq<Asset>)
    requires Valid(s)
    ensures |r| == |s.rows|
    ensures forall a :: a in r <==> a in s.rows
    ensures Descending(r)
  {
    var r := Reverse(s.rows);
    assert forall a :: a in s.rows ==> a in r by {
      forall a | a in s.rows ensures a in r {
        var i :| 0 <= i < |s.rows| && s.rows[i] == a;
        assert r[|s.rows| - 1 - i] == a;
      }
    }
    r
  }

  /** The WHERE clause of the search: one of the ten user columns is LIKE
      `%filter%`. The id and the creation stamp are not consulted. */
  predicate RowMatches(f: Fields, filter: string) {
    var p := ContainsPattern(filter);
    || LikeMatch(p, f.computerName)
    || LikeMatch(p, f.brand)
    || LikeMatch(p, f.cpu)
    || LikeMatch(p, f.ram)
    || LikeMatch(p, f.storage)
    || LikeMatch(p, f.consumables)
    || LikeMatch(p, f.serialNo)
    || LikeMatch(p, f.assetTag)
    || LikeMatch(p, f.custodian)
    || LikeMatch(p, f.custodyDate)
  }

  /** The rows that match `filter`, order kept. */
  function Select(rows: seq<Asset>, filter: string): (r: seq<Asset>)
    ensures forall a :: a in r <==> a in rows && RowMatches(a.fields, filter)
    ensures Descending(rows) ==> Descending(r)
  {
    if rows == [] then []
    else
      var rest := Select(rows[1..], filter);
      if RowMatches(rows[0].fields, filter) then
        var r := [rows[0]] + rest;
        assert Descending(rows) ==> Descending(r) by {
          if Descending(rows) {
            forall i, j | 0 <= i < j < |r| ensures r[i].id > r[j].id {
              if i == 0 {
                assert r[j] in rows[1..];
              } else {
                assert r[i] == rest[i - 1] && r[j] == rest[j - 1];
              }
            }
          }
        }
        r
      else rest
  }

  /** `tablo_yukle(filtre)`: with an empty filter the full listing,
      otherwise the listing cut down to the rows whose columns match. */
  function Query(s: Store, filter: string): (r: seq<Asset>)
    requires Valid(s)
    ensures filter == [] ==> r == List(s)
    ensures forall a :: a in r <==> a in s.rows && (filter == [] || RowMatches(a.fields, filter))
    ensures Descending(r)
  {
    if filter == [] then List(s) else Select(List(s), filter)
  }

  /** The search box: the typed text is stripped and handed to `Query`. */
  function Search(s: Store, typed: string): (r: seq<Asset>)
    requires Valid(s)
    ensures AllSpace(typed) ==> r == List(s)
    ensures forall a :: a in r <==>
              a in s.rows && (AllSpace(typed) || RowMatches(a.fields, Strip(typed)))
    ensures Descending(r)
  {
    StripEmptyIff(typed);
    Query(s, Strip(typed))
  }

  /** Some column contains `filter` as a substring, ASCII letters compared
      without case. */
  predicate SomeColumnContains(f: Fields, filter: string) {
    exists k :: 0 <= k < 10 && ContainsFolded(Columns(f)[k], filter)
  }

  /** For a filter free of `%` and `_` the LIKE clause is plain
      case-insensitive substring search over the ten user columns. */
  lemma RowMatchesIsSubstring(f: Fields, filter: string)
    requires NoWildcards(filter)
    ensures RowMatches(f, filter) <==> SomeColumnContains(f, filter)
  {
    var cols := Columns(f);
    forall k | 0 <= k < 10
      ensures LikeMatch(ContainsPattern(filter), cols[k]) <==> ContainsFolded(cols[k], filter)
    {
      ContainsPatternIff(filter, cols[k]);
    }
    if RowMatches(f, filter) {
      var p := ContainsPattern(filter);
      if LikeMatch(p, f.computerName) { assert ContainsFolded(cols[0], filter); }
      else if LikeMatch(p, f.brand) { assert ContainsFolded(cols[1], filter); }
      else if LikeMatch(p, f.cpu) { assert ContainsFolded(cols[2], filter); }
      else if LikeMatch(p, f.ram) { assert ContainsFolded(cols[3], filter); }
      else if LikeMatch(p, f.storage) { assert ContainsFolded(cols[4], filter); }
      else if LikeMatch(p, f.consumables) { assert ContainsFolded(cols[5], filter); }
      else if LikeMatch(p, f.serialNo) { assert ContainsFolded(cols[6], filter); }
      else if LikeMatch(p, f.assetTag) { assert ContainsFolded(cols[7], filter); }
      else if LikeMatch(p, f.custodian) { assert ContainsFolded(cols[8], filter); }
      else { assert ContainsFolded(cols[9], filter); }
    }
  }

  /** A search whose stripped text has no `%` or `_` returns exactly the
      stored rows with a column containing that text, up to ASCII case, or
      every row when the text is blank. */
  lemma SearchIsSubstringSearch(s: Store, typed: string, a: Asset)
    requires Valid(s) && NoWildcards(Strip(typed))
    ensures a in Search(s, typed) <==>
              a in s.rows && (AllSpace(typed) || SomeColumnContains(a.fields, Strip(typed)))
  {
    RowMatchesIsSubstring(a.fields, Strip(typed));
  }

  /** AUTOINCREMENT never hands out an id twice: a row created after another
      row was created and deleted gets a larger id. */
  lemma IdsNeverReused(s: Store, form1: Form, form2: Form, t1: DateTime, t2: DateTime)
    requires Valid(s) && ValidForm(form1) && ValidForm(form2)
    requires ValidDateTime(t1) && ValidDateTime(t2)
    ensures var (s1, r1) := Create(s, form1, t1);
            r1.Ok? ==>
              var s2 := Delete(s1, r1.value);
              var (s3, r3) := Create(s2, form2, t2);
              r3.Ok? ==> r3.value > r1.value && Lookup(s3, r1.value).None?
  {
  }
}
