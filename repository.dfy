/** The generic repository (src/repository.py): one table of rows with an
    auto-assigned primary key `id` and a unique column, reached through a
    session.  The read queries (`get`, `by_url`, `list`, `count`, `search`) are
    SELECT statements and are modelled as functions of the rows the session
    sees; `create`, `update` and `delete` change the session's rows and are
    methods of the class `Table`.  Nothing here commits: `Commit` and
    `Rollback` are the session's own operations, used by the callers that
    open a transaction. */
module Repository {
  import opened Values

  /** One row: the primary key the store assigned and the mapped object. */
  datatype Row<T> = Row(id: nat, obj: T)

  /** The most rows one `search` returns. */
  const SearchLimit := 50

  /** The rows are held in primary-key order, the order `ORDER BY id` yields. */
  ghost predicate IdsAscending<T>(rows: seq<Row<T>>) {
    forall i, j :: 0 <= i < j < |rows| ==> rows[i].id < rows[j].id
  }

  /** No two rows share a non-NULL value of the unique column (NULLs may repeat). */
  ghost predicate KeysUnique<T, K>(rows: seq<Row<T>>, keyOf: T -> Option<K>) {
    forall i, j :: 0 <= i < j < |rows| && keyOf(rows[i].obj).Some? ==> keyOf(rows[i].obj) != keyOf(rows[j].obj)
  }

  /** What the table always satisfies: ids ascending and below the id sequence's next value, unique column unique. */
  ghost predicate WellFormed<T, K>(rows: seq<Row<T>>, nextId: nat, keyOf: T -> Option<K>) {
    && IdsAscending(rows)
    && (forall i :: 0 <= i < |rows| ==> rows[i].id < nextId)
    && KeysUnique(rows, keyOf)
  }

  /** The unique column of a url-keyed entity: NULL urls are exempt from uniqueness. */
  function UrlKey(url: Value): Option<Value> {
    if url == Null then None else Some(url)
  }

  /** The unique column is the url column. */
  ghost predicate UrlKeyed<T(!new)>(keyOf: T -> Option<Value>, urlOf: T -> Value) {
    forall o :: keyOf(o) == UrlKey(urlOf(o))
  }

  /** Inserting `obj` would violate the unique constraint. */
  predicate KeyTaken<T, K(==)>(rows: seq<Row<T>>, keyOf: T -> Option<K>, obj: T) {
    keyOf(obj).Some? && exists i :: 0 <= i < |rows| && keyOf(rows[i].obj) == keyOf(obj)
  }

  /** Writing `row` would give its unique value to a row with another id. */
  predicate KeyClash<T, K(==)>(rows: seq<Row<T>>, keyOf: T -> Option<K>, row: Row<T>) {
    keyOf(row.obj).Some? && exists i :: 0 <= i < |rows| && rows[i].id != row.id && keyOf(rows[i].obj) == keyOf(row.obj)
  }

  // ----- read queries -----

  /** `session.get(model, id)`: the row whose primary key is `id`, or none. */
  function Get<T>(rows: seq<Row<T>>, id: int): (r: Option<Row<T>>)
    ensures r.None? <==> forall i :: 0 <= i < |rows| ==> rows[i].id != id
    ensures r.Some? ==> r.value.id == id && r.value in rows
  {
    if rows == [] then None
    else if rows[0].id == id then Some(rows[0])
    else Get(rows[1..], id)
  }

  /** The position of the first row satisfying `p`, or `|rows|` when none does. */
  function FirstIndex<T>(rows: seq<Row<T>>, p: T -> bool): (k: nat)
    ensures k <= |rows|
    ensures k < |rows| ==> p(rows[k].obj)
    ensures forall j :: 0 <= j < k ==> !p(rows[j].obj)
  {
    if rows == [] then 0
    else if p(rows[0].obj) then 0
    else 1 + FirstIndex(rows[1..], p)
  }

  /** `select ... where url == :url` then `.first()`: the first row in id order with that url.
      Comparing with NULL is `IS NULL` in SQLAlchemy, which is what `==` on `Value` does. */
  function ByUrl<T>(rows: seq<Row<T>>, urlOf: T -> Value, url: Value): (r: Option<Row<T>>)
    ensures r.None? <==> forall i :: 0 <= i < |rows| ==> urlOf(rows[i].obj) != url
    ensures r.Some? ==> r.value in rows && urlOf(r.value.obj) == url
  {
    var k := FirstIndex(rows, (o: T) => urlOf(o) == url);
    if k < |rows| then Some(rows[k]) else None
  }

  /** With the url column unique, at most one row has a given non-NULL url, so
      `by_url` finds exactly that row. */
  lemma {:induction false} ByUrlAtMostOne<T(!new)>(rows: seq<Row<T>>, keyOf: T -> Option<Value>, urlOf: T -> Value, url: Value, i: nat)
    requires UrlKeyed(keyOf, urlOf)
    requires KeysUnique(rows, keyOf)
    requires url != Null
    requires i < |rows| && urlOf(rows[i].obj) == url
    ensures ByUrl(rows, urlOf, url) == Some(rows[i])
  {
    var k := FirstIndex(rows, (o: T) => urlOf(o) == url);
    assert k <= i;
    assert keyOf(rows[i].obj) == Some(url);
  }

  /** When the url column is the unique one, a url that `by_url` does not find is free to insert. */
  lemma NotFoundByUrlIsFree<T(!new)>(rows: seq<Row<T>>, keyOf: T -> Option<Value>, urlOf: T -> Value, obj: T)
    requires UrlKeyed(keyOf, urlOf)
    requires ByUrl(rows, urlOf, urlOf(obj)).None?
    ensures !KeyTaken(rows, keyOf, obj)
  {
    forall k | 0 <= k < |rows| && keyOf(obj).Some? ensures keyOf(rows[k].obj) != keyOf(obj) {
      assert urlOf(rows[k].obj) != urlOf(obj);
    }
  }

  /** `ORDER BY id LIMIT limit OFFSET offset`: the rows ranked offset, offset + 1, ... in id order. */
  function List<T>(rows: seq<Row<T>>, limit: nat, offset: nat): (r: seq<Row<T>>)
    ensures |r| == if offset >= |rows| then 0 else Min(limit, |rows| - offset)
    ensures forall k :: 0 <= k < |r| ==> r[k] == rows[offset + k]
  {
    if offset >= |rows| then [] else rows[offset..offset + Min(limit, |rows| - offset)]
  }

  /** `SELECT count(*)`: one per row, which in a table keyed by id is one per distinct id. */
  function Count<T>(rows: seq<Row<T>>): (r: nat)
    ensures IdsAscending(rows) ==> r == |IdSet(rows)|
  {
    CountIsDistinctIds(rows);
    |rows|
  }

  /** The primary keys present. */
  function IdSet<T>(rows: seq<Row<T>>): set<nat> {
    set i | 0 <= i < |rows| :: rows[i].id
  }

  /** The number of rows counted is the number of distinct primary keys. */
  lemma {:induction false} CountIsDistinctIds<T>(rows: seq<Row<T>>)
    ensures IdsAscending(rows) ==> |rows| == |IdSet(rows)|
  {
    if rows != [] && IdsAscending(rows) {
      var tail := rows[1..];
      TailAscending(rows);
      CountIsDistinctIds(tail);
      IdSetCons(rows);
      assert rows[0].id !in IdSet(tail) by {
        forall i | 0 <= i < |tail| ensures tail[i].id != rows[0].id {
          assert tail[i] == rows[i + 1];
        }
      }
    }
  }

  /** The ids of a non-empty table are its first id and the ids of the rest. */
  lemma IdSetCons<T>(rows: seq<Row<T>>)
    requires rows != []
    ensures IdSet(rows) == {rows[0].id} + IdSet(rows[1..])
  {
    var tail := rows[1..];
    forall x | x in IdSet(rows) ensures x in {rows[0].id} + IdSet(tail) {
      var i :| 0 <= i < |rows| && rows[i].id == x;
      if i > 0 { assert tail[i - 1].id == x; }
    }
    forall x | x in IdSet(tail) ensures x in IdSet(rows) {
      var i :| 0 <= i < |tail| && tail[i].id == x;
      assert rows[i + 1].id == x;
    }
  }

  /** Dropping the first row keeps the rest in id order. */
  lemma TailAscending<T>(rows: seq<Row<T>>)
    requires rows != [] && IdsAscending(rows)
    ensures IdsAscending(rows[1..])
  {
    var tail := rows[1..];
    forall i, j | 0 <= i < j < |tail| ensures tail[i].id < tail[j].id {
      assert tail[i] == rows[i + 1] && tail[j] == rows[j + 1];
    }
  }

  /** A row placed before rows of larger ids keeps the id order. */
  lemma PrependAscending<T>(x: Row<T>, rest: seq<Row<T>>)
    requires IdsAscending(rest)
    requires forall k :: 0 <= k < |rest| ==> x.id < rest[k].id
    ensures IdsAscending([x] + rest)
  {
    var r := [x] + rest;
    forall i, j | 0 <= i < j < |r| ensures r[i].id < r[j].id {
      assert r[j] == rest[j - 1];
      if i > 0 {
        assert r[i] == rest[i - 1];
      }
    }
  }

  /** The distinct non-NULL values of the unique column. */
  function KeySet<T, K>(rows: seq<Row<T>>, keyOf: T -> Option<K>): set<K> {
    set i | 0 <= i < |rows| && keyOf(rows[i].obj).Some? :: keyOf(rows[i].obj).value
  }

  /** When every row has a non-NULL unique value, there are as many distinct values as rows. */
  lemma {:induction false} DistinctKeysCountRows<T, K>(rows: seq<Row<T>>, keyOf: T -> Option<K>)
    requires KeysUnique(rows, keyOf)
    requires forall i :: 0 <= i < |rows| ==> keyOf(rows[i].obj).Some?
    ensures |KeySet(rows, keyOf)| == Count(rows)
  {
    if rows != [] {
      var tail := rows[1..];
      assert KeysUnique(tail, keyOf) by {
        forall i, j | 0 <= i < j < |tail| && keyOf(tail[i].obj).Some?
          ensures keyOf(tail[i].obj) != keyOf(tail[j].obj)
        {
          assert tail[i] == rows[i + 1] && tail[j] == rows[j + 1];
        }
      }
      DistinctKeysCountRows(tail, keyOf);
      var k0 := keyOf(rows[0].obj).value;
      assert KeySet(rows, keyOf) == {k0} + KeySet(tail, keyOf) by {
        forall x | x in KeySet(rows, keyOf) ensures x in {k0} + KeySet(tail, keyOf) {
          var i :| 0 <= i < |rows| && keyOf(rows[i].obj).Some? && keyOf(rows[i].obj).value == x;
          if i > 0 { assert tail[i - 1] == rows[i]; }
        }
        forall x | x in KeySet(tail, keyOf) ensures x in KeySet(rows, keyOf) {
          var i :| 0 <= i < |tail| && keyOf(tail[i].obj).Some? && keyOf(tail[i].obj).value == x;
          assert rows[i + 1] == tail[i];
        }
      }
      assert k0 !in KeySet(tail, keyOf) by {
        forall i | 0 <= i < |tail| && keyOf(tail[i].obj).Some? ensures keyOf(tail[i].obj).value != k0 {
          assert tail[i] == rows[i + 1];
        }
      }
    }
  }

  /** A row's search attribute matches `q` (a NULL attribute never matches). */
  predicate Matches(attr: Option<string>, q: string) {
    attr.Some? && ContainsIgnoringCase(attr.value, q)
  }

  /** `WHERE attr ILIKE '%q%' ORDER BY id`: the matching rows, in table order. */
  function Matching<T>(rows: seq<Row<T>>, attr: T -> Option<string>, q: string): seq<Row<T>> {
    if rows == [] then []
    else (if Matches(attr(rows[0].obj), q) then [rows[0]] else []) + Matching(rows[1..], attr, q)
  }

  /** The filter keeps only matching rows of the table, no more than there are. */
  lemma {:induction false} MatchingOnlyMatches<T>(rows: seq<Row<T>>, attr: T -> Option<string>, q: string)
    ensures |Matching(rows, attr, q)| <= |rows|
    ensures forall k :: 0 <= k < |Matching(rows, attr, q)| ==>
              Matching(rows, attr, q)[k] in rows && Matches(attr(Matching(rows, attr, q)[k].obj), q)
  {
    if rows != [] {
      var tail := rows[1..];
      MatchingOnlyMatches(tail, attr, q);
      var head := if Matches(attr(rows[0].obj), q) then [rows[0]] else [];
      var rest := Matching(tail, attr, q);
      var m := head + rest;
      forall k | 0 <= k < |m| ensures m[k] in rows && Matches(attr(m[k].obj), q) {
        if k >= |head| {
          assert m[k] == rest[k - |head|];
          var j :| 0 <= j < |tail| && tail[j] == rest[k - |head|];
          assert rows[j + 1] == m[k];
        }
      }
    }
  }

  /** The filter keeps every matching row. */
  lemma {:induction false} MatchingKeepsAll<T>(rows: seq<Row<T>>, attr: T -> Option<string>, q: string)
    ensures forall k :: 0 <= k < |rows| && Matches(attr(rows[k].obj), q) ==> rows[k] in Matching(rows, attr, q)
  {
    if rows != [] {
      var tail := rows[1..];
      MatchingKeepsAll(tail, attr, q);
      var head := if Matches(attr(rows[0].obj), q) then [rows[0]] else [];
      var rest := Matching(tail, attr, q);
      var m := head + rest;
      forall k | 0 <= k < |rows| && Matches(attr(rows[k].obj), q) ensures rows[k] in m {
        if k == 0 {
          assert m[0] == rows[0];
        } else {
          assert tail[k - 1] == rows[k];
          var j :| 0 <= j < |rest| && rest[j] == rows[k];
          assert m[|head| + j] == rows[k];
        }
      }
    }
  }

  /** The filter keeps the table's id order. */
  lemma {:induction false} MatchingOrdered<T>(rows: seq<Row<T>>, attr: T -> Option<string>, q: string)
    ensures IdsAscending(rows) ==> IdsAscending(Matching(rows, attr, q))
  {
    if rows != [] && IdsAscending(rows) {
      var tail := rows[1..];
      TailAscending(rows);
      MatchingOrdered(tail, attr, q);
      if Matches(attr(rows[0].obj), q) {
        MatchingOnlyMatches(tail, attr, q);
        var rest := Matching(tail, attr, q);
        forall k | 0 <= k < |rest| ensures rows[0].id < rest[k].id {
          var b :| 0 <= b < |tail| && tail[b] == rest[k];
          assert rows[b + 1] == rest[k];
        }
        PrependAscending(rows[0], rest);
      }
    }
  }

  /** `Matching` distributes over splitting the table. */
  lemma {:induction false} MatchingSplit<T>(rows: seq<Row<T>>, attr: T -> Option<string>, q: string, k: nat)
    requires k <= |rows|
    ensures Matching(rows, attr, q) == Matching(rows[..k], attr, q) + Matching(rows[k..], attr, q)
    decreases k
  {
    if k > 0 {
      var tail, pre := rows[1..], rows[..k];
      MatchingSplit(tail, attr, q, k - 1);
      assert pre[0] == rows[0];
      assert tail[..k - 1] == pre[1..];
      assert tail[k - 1..] == rows[k..];
    }
  }

  /** `search(q)`: the first `SearchLimit` matching rows in id order. */
  function Search<T>(rows: seq<Row<T>>, attr: T -> Option<string>, q: string): (r: seq<Row<T>>)
    ensures |r| == Min(SearchLimit, |Matching(rows, attr, q)|)
    ensures r == Matching(rows, attr, q)[..|r|]
    ensures forall k :: 0 <= k < |r| ==> r[k] in rows && Matches(attr(r[k].obj), q)
    ensures IdsAscending(rows) ==> IdsAscending(r)
    ensures r == [] <==> forall k :: 0 <= k < |rows| ==> !Matches(attr(rows[k].obj), q)
  {
    MatchingOnlyMatches(rows, attr, q);
    MatchingKeepsAll(rows, attr, q);
    MatchingOrdered(rows, attr, q);
    var m := Matching(rows, attr, q);
    assert m != [] ==> exists k :: 0 <= k < |rows| && rows[k] == m[0];
    if |m| <= SearchLimit then m else m[..SearchLimit]
  }

  /** A matching row with fewer than `SearchLimit` matching rows before it is in the search result. */
  lemma SearchFinds<T>(rows: seq<Row<T>>, attr: T -> Option<string>, q: string, k: nat)
    requires k < |rows| && Matches(attr(rows[k].obj), q)
    requires |Matching(rows[..k], attr, q)| < SearchLimit
    ensures rows[k] in Search(rows, attr, q)
  {
    MatchingSplit(rows, attr, q, k);
    var before := Matching(rows[..k], attr, q);
    assert rows[k..] == [rows[k]] + rows[k + 1..];
    assert Matching(rows[k..], attr, q) == [rows[k]] + Matching(rows[k + 1..], attr, q);
    assert Matching(rows, attr, q)[|before|] == rows[k];
  }

  // ----- pure effects of the writes -----

  /** The rows after writing `row` over the row with the same id. */
  function Replace<T>(rows: seq<Row<T>>, row: Row<T>): seq<Row<T>> {
    seq(|rows|, i requires 0 <= i < |rows| => if rows[i].id == row.id then row else rows[i])
  }

  /** The rows after inserting `row` at its place in id order. */
  function InsertById<T>(rows: seq<Row<T>>, row: Row<T>): seq<Row<T>> {
    if rows == [] || row.id < rows[0].id then [row] + rows
    else [rows[0]] + InsertById(rows[1..], row)
  }

  /** Inserting adds one row: every row afterwards is the new one or an old one. */
  lemma {:induction false} InsertByIdRows<T>(rows: seq<Row<T>>, row: Row<T>)
    ensures |InsertById(rows, row)| == |rows| + 1
    ensures forall k :: 0 <= k < |InsertById(rows, row)| ==> InsertById(rows, row)[k] == row || InsertById(rows, row)[k] in rows
  {
    var r := InsertById(rows, row);
    if rows == [] || row.id < rows[0].id {
      forall k | 0 <= k < |r| ensures r[k] == row || r[k] in rows {
        if k > 0 { assert r[k] == rows[k - 1]; }
      }
    } else {
      var tail := rows[1..];
      InsertByIdRows(tail, row);
      var rest := InsertById(tail, row);
      forall k | 0 <= k < |r| ensures r[k] == row || r[k] in rows {
        if k > 0 && rest[k - 1] != row {
          var b :| 0 <= b < |tail| && tail[b] == rest[k - 1];
          assert rows[b + 1] == r[k];
        }
      }
    }
  }

  /** Inserting a fresh id keeps the rows in id order. */
  lemma {:induction false} InsertByIdOrdered<T>(rows: seq<Row<T>>, row: Row<T>)
    requires IdsAscending(rows) && Get(rows, row.id).None?
    ensures IdsAscending(InsertById(rows, row))
  {
    var r := InsertById(rows, row);
    if rows == [] || row.id < rows[0].id {
      forall i, j | 0 <= i < j < |r| ensures r[i].id < r[j].id {
        assert r[j] == rows[j - 1];
        if i > 0 { assert r[i] == rows[i - 1]; }
      }
    } else {
      var tail := rows[1..];
      assert IdsAscending(tail) by {
        forall i, j | 0 <= i < j < |tail| ensures tail[i].id < tail[j].id {
          assert tail[i] == rows[i + 1] && tail[j] == rows[j + 1];
        }
      }
      assert rows[0].id != row.id;
      InsertByIdOrdered(tail, row);
      InsertByIdRows(tail, row);
      var rest := InsertById(tail, row);
      forall i, j | 0 <= i < j < |r| ensures r[i].id < r[j].id {
        assert r[j] == rest[j - 1];
        if i > 0 {
          assert r[i] == rest[i - 1];
        } else if rest[j - 1] != row {
          var b :| 0 <= b < |tail| && tail[b] == rest[j - 1];
          assert rows[b + 1] == tail[b];
        }
      }
    }
  }

  /** After inserting a fresh id, `get` finds the new row under it and what it found before under every other id. */
  lemma {:induction false} GetInsertById<T>(rows: seq<Row<T>>, row: Row<T>, id: int)
    requires Get(rows, row.id).None?
    ensures Get(InsertById(rows, row), id) == if id == row.id then Some(row) else Get(rows, id)
  {
    if rows == [] || row.id < rows[0].id {
      assert ([row] + rows)[1..] == rows;
    } else {
      assert rows[0].id != row.id;
      GetInsertById(rows[1..], row, id);
      assert ([rows[0]] + InsertById(rows[1..], row))[1..] == InsertById(rows[1..], row);
    }
  }

  /** After overwriting, `get` finds the new row under its id when that id was
      present, and what it found before under every other id. */
  lemma {:induction false} GetReplace<T>(rows: seq<Row<T>>, row: Row<T>, id: int)
    ensures Get(Replace(rows, row), id) == if id == row.id then (if Get(rows, id).Some? then Some(row) else None) else Get(rows, id)
  {
    if rows != [] {
      GetReplace(rows[1..], row, id);
      assert Replace(rows, row)[1..] == Replace(rows[1..], row);
    }
  }

  /** `session.merge(obj)`: overwrite the row with that id, or insert it when no row has it. */
  function Merge<T>(rows: seq<Row<T>>, row: Row<T>): seq<Row<T>> {
    if Get(rows, row.id).Some? then Replace(rows, row) else InsertById(rows, row)
  }

  /** After a merge the row is found under its id and every other id finds what it found before. */
  lemma MergeGet<T>(rows: seq<Row<T>>, row: Row<T>, id: int)
    requires IdsAscending(rows)
    ensures IdsAscending(Merge(rows, row))
    ensures Get(Merge(rows, row), id) == if id == row.id then Some(row) else Get(rows, id)
  {
    if Get(rows, row.id).Some? {
      GetReplace(rows, row, id);
      var m := Replace(rows, row);
      assert forall k :: 0 <= k < |m| ==> m[k].id == rows[k].id;
    } else {
      GetInsertById(rows, row, id);
      InsertByIdOrdered(rows, row);
    }
  }

  /** Every row after a merge is the merged row, or an untouched row with another id. */
  lemma MergedRow<T>(rows: seq<Row<T>>, row: Row<T>, i: nat)
    requires i < |Merge(rows, row)|
    ensures Merge(rows, row)[i] == row || (Merge(rows, row)[i].id != row.id && Merge(rows, row)[i] in rows)
  {
    if Get(rows, row.id).None? {
      InsertByIdRows(rows, row);
    }
  }

  /** A merge without a clash on the unique column keeps that column unique. */
  lemma MergeKeysUnique<T, K>(rows: seq<Row<T>>, keyOf: T -> Option<K>, row: Row<T>)
    requires IdsAscending(rows) && KeysUnique(rows, keyOf) && !KeyClash(rows, keyOf, row)
    ensures KeysUnique(Merge(rows, row), keyOf)
  {
    var m := Merge(rows, row);
    MergeGet(rows, row, row.id);
    forall i, j | 0 <= i < j < |m| && keyOf(m[i].obj).Some?
      ensures keyOf(m[i].obj) != keyOf(m[j].obj)
    {
      MergedRow(rows, row, i);
      MergedRow(rows, row, j);
      if m[i] != row && m[j] != row {
        var a :| 0 <= a < |rows| && rows[a] == m[i];
        var b :| 0 <= b < |rows| && rows[b] == m[j];
        assert a != b;
      }
    }
  }

  /** With distinct ids, `Get` is determined by membership. */
  lemma GetUnique<T>(rows: seq<Row<T>>, id: int)
    requires IdsAscending(rows)
    ensures forall k :: 0 <= k < |rows| && rows[k].id == id ==> Get(rows, id) == Some(rows[k])
  {
    forall k | 0 <= k < |rows| && rows[k].id == id ensures Get(rows, id) == Some(rows[k]) {
      var r := Get(rows, id);
      var j :| 0 <= j < |rows| && rows[j] == r.value;
      assert j == k;
    }
  }

  /** The rows after deleting the row with id `id`. */
  function RemoveId<T>(rows: seq<Row<T>>, id: nat): seq<Row<T>> {
    if rows == [] then []
    else if rows[0].id == id then RemoveId(rows[1..], id)
    else [rows[0]] + RemoveId(rows[1..], id)
  }

  /** Deleting keeps exactly the rows with other ids: every row left is an old
      row with another id, and every old row with another id is left. */
  lemma {:induction false} RemoveIdRows<T>(rows: seq<Row<T>>, id: nat)
    ensures |RemoveId(rows, id)| <= |rows|
    ensures forall k :: 0 <= k < |RemoveId(rows, id)| ==> RemoveId(rows, id)[k] in rows && RemoveId(rows, id)[k].id != id
    ensures forall a :: 0 <= a < |rows| && rows[a].id != id ==> rows[a] in RemoveId(rows, id)
  {
    if rows != [] {
      var tail := rows[1..];
      RemoveIdRows(tail, id);
      var rest := RemoveId(tail, id);
      var r := RemoveId(rows, id);
      forall k | 0 <= k < |r| ensures r[k] in rows && r[k].id != id {
        if rows[0].id != id && k > 0 {
          assert r[k] == rest[k - 1];
        }
      }
      forall a | 0 <= a < |rows| && rows[a].id != id ensures rows[a] in r {
        if a > 0 {
          assert tail[a - 1] == rows[a];
        }
      }
    }
  }

  /** Deleting from well-ordered rows keeps them in id order and keeps the unique column unique. */
  lemma {:induction false} RemoveIdOrdered<T, K>(rows: seq<Row<T>>, id: nat, keyOf: T -> Option<K>)
    requires IdsAscending(rows) && KeysUnique(rows, keyOf)
    ensures IdsAscending(RemoveId(rows, id)) && KeysUnique(RemoveId(rows, id), keyOf)
  {
    if rows != [] {
      var tail := rows[1..];
      assert IdsAscending(tail) && KeysUnique(tail, keyOf) by {
        forall i, j | 0 <= i < j < |tail| ensures tail[i] == rows[i + 1] && tail[j] == rows[j + 1] {}
      }
      RemoveIdOrdered(tail, id, keyOf);
      RemoveIdRows(tail, id);
      var rest := RemoveId(tail, id);
      if rows[0].id != id {
        forall k | 0 <= k < |rest|
          ensures rows[0].id < rest[k].id && (keyOf(rows[0].obj).Some? ==> keyOf(rows[0].obj) != keyOf(rest[k].obj))
        {
          var b :| 0 <= b < |tail| && tail[b] == rest[k];
          assert rows[b + 1] == rest[k];
        }
        PrependOrdered(rows[0], rest, keyOf);
      }
    }
  }

  /** A row placed before rows of larger ids and other unique values keeps the order and the uniqueness. */
  lemma PrependOrdered<T, K>(x: Row<T>, rest: seq<Row<T>>, keyOf: T -> Option<K>)
    requires IdsAscending(rest) && KeysUnique(rest, keyOf)
    requires forall k :: 0 <= k < |rest| ==> x.id < rest[k].id && (keyOf(x.obj).Some? ==> keyOf(x.obj) != keyOf(rest[k].obj))
    ensures IdsAscending([x] + rest) && KeysUnique([x] + rest, keyOf)
  {
    var r := [x] + rest;
    forall i, j | 0 <= i < j < |r|
      ensures r[i].id < r[j].id && (keyOf(r[i].obj).Some? ==> keyOf(r[i].obj) != keyOf(r[j].obj))
    {
      assert r[j] == rest[j - 1];
      if i > 0 {
        assert r[i] == rest[i - 1];
      }
    }
  }

  /** A table reached through one session.  `rows` is what the session sees
      (the committed rows plus its own flushed writes), `committed` what the
      last commit made durable, `nextId` the next value of the id sequence,
      which a rollback does not rewind. */
  class Table<T, K(==)> {
    const keyOf: T -> Option<K>
    var rows: seq<Row<T>>
    var committed: seq<Row<T>>
    var nextId: nat

    ghost predicate Valid()
      reads this
    {
      WellFormed(rows, nextId, keyOf) && WellFormed(committed, nextId, keyOf)
    }

    /** True when the session holds no uncommitted writes (a fresh session). */
    ghost predicate Clean()
      reads this
    {
      rows == committed
    }

    constructor (keyOf: T -> Option<K>)
      ensures Valid() && Clean() && this.keyOf == keyOf
      ensures rows == [] && nextId == 1
    {
      this.keyOf := keyOf;
      rows := [];
      committed := [];
      nextId := 1;
    }

    /** `create(obj)`: add, flush and refresh.  The new row gets the next id and is
        visible to this session at once; nothing is committed.  A flush that would
        repeat a unique value fails with the integrity error, and the failed flush
        rolls the transaction back: the session is left with the committed rows. */
    method Create(obj: T) returns (r: Result<Row<T>, Error>)
      requires Valid()
      modifies this
      ensures Valid() && committed == old(committed)
      ensures KeyTaken(old(rows), keyOf, obj) ==> r == Err(IntegrityError) && rows == old(committed) && nextId == old(nextId)
      ensures !KeyTaken(old(rows), keyOf, obj) ==>
                && r == Ok(Row(old(nextId), obj))
                && rows == old(rows) + [r.value]
                && nextId == old(nextId) + 1
    {
      if KeyTaken(rows, keyOf, obj) {
        rows := committed;
        return Err(IntegrityError);
      }
      var row := Row(nextId, obj);
      rows := rows + [row];
      nextId := nextId + 1;
      r := Ok(row);
    }

    /** `update(obj)`: merge the object into the session and flush.  The row with
        that id is overwritten (or inserted when there is none); a clash on the
        unique column fails, and the failed flush rolls the transaction back. */
    method Update(row: Row<T>) returns (r: Result<Row<T>, Error>)
      requires Valid()
      modifies this
      ensures Valid() && committed == old(committed)
      ensures KeyClash(old(rows), keyOf, row) ==> r == Err(IntegrityError) && rows == old(committed) && nextId == old(nextId)
      ensures !KeyClash(old(rows), keyOf, row) ==>
                && r == Ok(row)
                && rows == Merge(old(rows), row)
                && nextId == (if row.id < old(nextId) then old(nextId) else row.id + 1)
    {
      if KeyClash(rows, keyOf, row) {
        rows := committed;
        return Err(IntegrityError);
      }
      var merged := Merge(rows, row);
      MergeGet(rows, row, row.id);
      MergeKeysUnique(rows, keyOf, row);
      var n := if row.id < nextId then nextId else row.id + 1;
      forall k | 0 <= k < |merged| ensures merged[k].id < n {
        MergedRow(rows, row, k);
      }
      rows := merged;
      nextId := n;
      r := Ok(row);
    }

    /** `delete(obj)`: remove the row with the object's id and flush; deleting an
        object the session does not hold is refused. */
    method Delete(row: Row<T>) returns (r: Result<(), Error>)
      requires Valid()
      modifies this
      ensures Valid() && committed == old(committed) && nextId == old(nextId)
      ensures Get(old(rows), row.id).None? ==> r == Err(InvalidRequest) && rows == old(rows)
      ensures Get(old(rows), row.id).Some? ==> r == Ok(()) && rows == RemoveId(old(rows), row.id)
    {
      if Get(rows, row.id).None? {
        return Err(InvalidRequest);
      }
      var left := RemoveId(rows, row.id);
      RemoveIdOrdered(rows, row.id, keyOf);
      RemoveIdRows(rows, row.id);
      rows := left;
      r := Ok(());
    }

    /** `session.commit()`: the session's rows become the durable ones. */
    method Commit()
      requires Valid()
      modifies this
      ensures Valid() && Clean() && rows == old(rows) && nextId == old(nextId)
    {
      committed := rows;
    }

    /** The rollback on leaving a transaction by an exception: the session's
        writes are dropped; the id sequence is not rewound. */
    method Rollback()
      requires Valid()
      modifies this
      ensures Valid() && Clean() && committed == old(committed) && nextId == old(nextId)
    {
      rows := committed;
    }
  }
}
