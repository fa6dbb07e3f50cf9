/** The generic service layer (src/service.py): pagination over the
    repository's `list` and `count`, the batched `list_all` walk, lookups that
    turn a missing row into a not-found error, and `create`, which hands the
    object to the repository unchanged.  It also holds the insert-if-absent
    walk that the service tests assert for `add_characters` and `add_films`
    (src/characters/test_service.py, src/films/tests/integration/test_film_service.py);
    no implementation of it is among the service files. */
module Service {
  import opened Values
  import opened Repository

  /** `ListPaginationORMService.BATCH_SIZE`, also the default page size. */
  const BatchSize := 50

  /** The largest page size `list` lets through. */
  const MaxPageSize := 1000

  /** The page envelope (src/utils/schemas.py). */
  datatype Page<T> = Page(items: seq<Row<T>>, total: int, page: int, pageSize: int, pages: int)

  /** The field constraints of the page envelope: total >= 0, page >= 1, 1 <= page_size <= 1000. */
  predicate PageValid<T>(p: Page<T>) {
    p.total >= 0 && p.page >= 1 && 1 <= p.pageSize <= MaxPageSize
  }

  /** `ceil(total / page_size) if total else 1`, over the integers. */
  function PageCount(total: nat, pageSize: nat): (pages: nat)
    requires pageSize >= 1
    ensures total == 0 ==> pages == 1
    ensures total > 0 ==> (pages - 1) * pageSize < total <= pages * pageSize
  {
    if total == 0 then 1
    else
      var n := total + pageSize - 1;
      var q, m := n / pageSize, n % pageSize;
      assert n == q * pageSize + m && 0 <= m < pageSize;
      assert (q - 1) * pageSize == q * pageSize - pageSize;
      q
  }

  /** The offset of a page: `(page - 1) * page_size`. */
  function Offset(page: int, pageSize: int): (offset: nat)
    requires page >= 1 && pageSize >= 1
  {
    assert (page - 1) * pageSize >= 0 * pageSize;
    (page - 1) * pageSize
  }

  /** `list(page, page_size)`: clamp both, read the page at offset
      `(page - 1) * page_size`, count the table, and size the page set. */
  function ListPage<T>(rows: seq<Row<T>>, page: int, pageSize: int): (r: Page<T>)
    ensures PageValid(r)
    ensures r.page == (if page < 1 then 1 else page)
    ensures r.pageSize == (if pageSize < 1 then 1 else if pageSize > MaxPageSize then MaxPageSize else pageSize)
    ensures var offset := Offset(r.page, r.pageSize);
            && |r.items| == (if offset >= |rows| then 0 else Min(r.pageSize, |rows| - offset))
            && forall k :: 0 <= k < |r.items| ==> r.items[k] == rows[offset + k]
    ensures r.total == |rows|
    ensures r.total == 0 ==> r.pages == 1
    ensures r.total > 0 ==> (r.pages - 1) * r.pageSize < r.total <= r.pages * r.pageSize
  {
    var p := if page < 1 then 1 else page;
    var size := if pageSize < 1 then 1 else if pageSize > MaxPageSize then MaxPageSize else pageSize;
    var items := List(rows, size, Offset(p, size));
    var total := Count(rows);
    Page(items, total, p, size, PageCount(total, size))
  }

  /** With at least ten rows, the first page of five holds five rows (the service tests' `test_list`). */
  lemma FirstPageOfFive<T>(rows: seq<Row<T>>)
    requires |rows| >= 10
    ensures var r := ListPage(rows, 1, 5);
            |r.items| == 5 && r.page == 1 && r.pageSize == 5 && r.total >= 10 && r.pages == (|rows| + 4) / 5
  {
    var r := ListPage(rows, 1, 5);
    assert (r.pages - 1) * 5 < |rows| <= r.pages * 5;
  }

  /** The not-found message of the generic services. */
  function NotFoundDetail(id: string): string {
    "ORM model with ID " + id + " not found."
  }

  /** `GetORMService.get(id)`: the row with that primary key, or the not-found error. */
  function Get<T>(rows: seq<Row<T>>, id: int): (r: Result<Row<T>, Error>)
    ensures r.Ok? <==> exists k :: 0 <= k < |rows| && rows[k].id == id
    ensures r.Ok? ==> r.value in rows && r.value.id == id
    ensures r.Err? ==> r.error == NotFound(NotFoundDetail(IntToString(id)))
  {
    match Repository.Get(rows, id)
    case None => Err(NotFound(NotFoundDetail(IntToString(id))))
    case Some(row) => Ok(row)
  }

  /** `GetORMService.by_url(url)`: the first row with that url, or the not-found
      error, whose message carries the url where `get` puts the id. */
  function ByUrl<T>(rows: seq<Row<T>>, urlOf: T -> Value, url: string): (r: Result<Row<T>, Error>)
    ensures r.Ok? <==> exists k :: 0 <= k < |rows| && urlOf(rows[k].obj) == Str(url)
    ensures r.Ok? ==> r.value in rows && urlOf(r.value.obj) == Str(url)
    ensures r.Err? ==> r.error == NotFound(NotFoundDetail(url))
  {
    match Repository.ByUrl(rows, urlOf, Str(url))
    case None => Err(NotFound(NotFoundDetail(url)))
    case Some(row) => Ok(row)
  }

  /** The batches yielded one after another, joined. */
  function Flatten<T>(batches: seq<seq<Row<T>>>): seq<Row<T>> {
    if batches == [] then [] else Flatten(batches[..|batches| - 1]) + batches[|batches| - 1]
  }

  /** Reading the batch at the next offset extends what the batches cover by that batch. */
  lemma NextBatch<T>(rows: seq<Row<T>>, batches: seq<seq<Row<T>>>, offset: nat)
    requires Flatten(batches) == rows[..Min(offset, |rows|)]
    requires List(rows, BatchSize, offset) != []
    ensures offset < |rows|
    ensures Flatten(batches + [List(rows, BatchSize, offset)]) == rows[..Min(offset + BatchSize, |rows|)]
  {
    var batch := List(rows, BatchSize, offset);
    var next := Min(offset + BatchSize, |rows|);
    assert batch == rows[offset..next];
    assert rows[..next] == rows[..offset] + batch;
    assert (batches + [batch])[..|batches|] == batches;
  }

  /** `list_all()`: read batches of `BatchSize` at offsets 0, 50, 100, ... and stop
      at the first empty one.  Every batch handed out is non-empty, is the page
      at its offset, and together they are the whole table in id order.  The
      generator is modelled as the list of what it yields over an unchanging table. */
  method ListAll<T>(rows: seq<Row<T>>) returns (batches: seq<seq<Row<T>>>)
    ensures forall k :: 0 <= k < |batches| ==> 0 < |batches[k]| <= BatchSize
    ensures forall k :: 0 <= k < |batches| ==> batches[k] == List(rows, BatchSize, k * BatchSize)
    ensures Flatten(batches) == rows
  {
    var offset := 0;
    batches := [];
    while true
      invariant offset == |batches| * BatchSize
      invariant forall k :: 0 <= k < |batches| ==> 0 < |batches[k]| <= BatchSize
      invariant forall k :: 0 <= k < |batches| ==> batches[k] == List(rows, BatchSize, k * BatchSize)
      invariant Flatten(batches) == rows[..Min(offset, |rows|)]
      decreases |rows| - offset
    {
      var batch := List(rows, BatchSize, offset);
      if batch == [] {
        break;
      }
      NextBatch(rows, batches, offset);
      batches := batches + [batch];
      offset := offset + BatchSize;
    }
    assert rows[..|rows|] == rows;
  }

  /** `CreateORMService.create(obj)`: the repository's create, result passed back unchanged. */
  method Create<T, K(==)>(table: Table<T, K>, obj: T) returns (r: Result<Row<T>, Error>)
    requires table.Valid()
    modifies table
    ensures table.Valid() && table.committed == old(table.committed)
    ensures KeyTaken(old(table.rows), table.keyOf, obj) ==>
              r == Err(IntegrityError) && table.rows == old(table.committed) && table.nextId == old(table.nextId)
    ensures !KeyTaken(old(table.rows), table.keyOf, obj) ==>
              && r == Ok(Row(old(table.nextId), obj)) && table.rows == old(table.rows) + [r.value]
              && table.nextId == old(table.nextId) + 1
  {
    r := table.Create(obj);
  }

  // ----- insert-if-absent (asserted by the service tests only) -----

  /** The rows after the insert-if-absent walk over `records`: each record is
      normalised, looked up by url, and created only when the lookup finds
      nothing; the first normalisation error ends the walk. */
  function AddRun<T>(rows: seq<Row<T>>, nextId: nat, urlOf: T -> Value, records: seq<Record>, step: Record -> Result<T, Error>): Result<seq<Row<T>>, Error>
    decreases |records|
  {
    if records == [] then Ok(rows)
    else match step(records[0])
      case Err(e) => Err(e)
      case Ok(obj) =>
        if Repository.ByUrl(rows, urlOf, urlOf(obj)).Some? then AddRun(rows, nextId, urlOf, records[1..], step)
        else AddRun(rows + [Row(nextId, obj)], nextId + 1, urlOf, records[1..], step)
  }

  /** The walk from record `i` on, unfolded by one record: an error at record
      `i` ends it, a url already present skips the record, and a new url adds
      one row with the next id. */
  lemma AddRunAt<T>(rows: seq<Row<T>>, nextId: nat, urlOf: T -> Value, records: seq<Record>, i: nat, step: Record -> Result<T, Error>)
    requires i < |records|
    ensures step(records[i]).Err? ==> AddRun(rows, nextId, urlOf, records[i..], step) == Err(step(records[i]).error)
    ensures step(records[i]).Ok? && Repository.ByUrl(rows, urlOf, urlOf(step(records[i]).value)).Some? ==>
              AddRun(rows, nextId, urlOf, records[i..], step) == AddRun(rows, nextId, urlOf, records[i + 1..], step)
    ensures step(records[i]).Ok? && Repository.ByUrl(rows, urlOf, urlOf(step(records[i]).value)).None? ==>
              AddRun(rows, nextId, urlOf, records[i..], step) == AddRun(rows + [Row(nextId, step(records[i]).value)], nextId + 1, urlOf, records[i + 1..], step)
  {
    assert records[i..][0] == records[i] && records[i..][1..] == records[i + 1..];
  }

  /** A successful walk only appends rows. */
  lemma {:induction false} AddRunGrows<T>(rows: seq<Row<T>>, nextId: nat, urlOf: T -> Value, records: seq<Record>, step: Record -> Result<T, Error>)
    requires AddRun(rows, nextId, urlOf, records, step).Ok?
    ensures var after := AddRun(rows, nextId, urlOf, records, step).value;
            |rows| <= |after| && after[..|rows|] == rows
    decreases |records|
  {
    if records != [] {
      var obj := step(records[0]).value;
      var next := if Repository.ByUrl(rows, urlOf, urlOf(obj)).Some? then rows else rows + [Row(nextId, obj)];
      var nextN := if Repository.ByUrl(rows, urlOf, urlOf(obj)).Some? then nextId else nextId + 1;
      assert AddRun(rows, nextId, urlOf, records, step) == AddRun(next, nextN, urlOf, records[1..], step);
      AddRunGrows(next, nextN, urlOf, records[1..], step);
      var after := AddRun(rows, nextId, urlOf, records, step).value;
      assert after[..|next|] == next;
      assert after[..|rows|] == next[..|rows|];
    }
  }

  /** A url present in a prefix of the rows is present in the rows. */
  lemma ByUrlInPrefix<T>(pre: seq<Row<T>>, all: seq<Row<T>>, urlOf: T -> Value, url: Value)
    requires |pre| <= |all| && all[..|pre|] == pre
    requires Repository.ByUrl(pre, urlOf, url).Some?
    ensures Repository.ByUrl(all, urlOf, url).Some?
  {
    var j :| 0 <= j < |pre| && pre[j] == Repository.ByUrl(pre, urlOf, url).value;
    assert all[j] == pre[j];
  }

  /** A successful walk only adds rows, and afterwards every record's url is present. */
  lemma {:induction false} AddRunCovers<T>(rows: seq<Row<T>>, nextId: nat, urlOf: T -> Value, records: seq<Record>, step: Record -> Result<T, Error>)
    requires AddRun(rows, nextId, urlOf, records, step).Ok?
    ensures var after := AddRun(rows, nextId, urlOf, records, step).value;
            && |rows| <= |after| && after[..|rows|] == rows
            && forall i :: 0 <= i < |records| ==> step(records[i]).Ok? && Repository.ByUrl(after, urlOf, urlOf(step(records[i]).value)).Some?
    decreases |records|
  {
    AddRunGrows(rows, nextId, urlOf, records, step);
    if records != [] {
      var obj := step(records[0]).value;
      var next := if Repository.ByUrl(rows, urlOf, urlOf(obj)).Some? then rows else rows + [Row(nextId, obj)];
      var nextN := if Repository.ByUrl(rows, urlOf, urlOf(obj)).Some? then nextId else nextId + 1;
      assert AddRun(rows, nextId, urlOf, records, step) == AddRun(next, nextN, urlOf, records[1..], step);
      AddRunCovers(next, nextN, urlOf, records[1..], step);
      var after := AddRun(rows, nextId, urlOf, records, step).value;
      assert Repository.ByUrl(next, urlOf, urlOf(obj)).Some? by {
        if Repository.ByUrl(rows, urlOf, urlOf(obj)).None? {
          assert next[|rows|].obj == obj;
        }
      }
      ByUrlInPrefix(next, after, urlOf, urlOf(obj));
      forall i | 0 <= i < |records| ensures step(records[i]).Ok? && Repository.ByUrl(after, urlOf, urlOf(step(records[i]).value)).Some? {
        if i > 0 { assert records[1..][i - 1] == records[i]; }
      }
    }
  }

  /** A walk over records whose urls are all present already changes nothing. */
  lemma {:induction false} AddRunNoop<T>(rows: seq<Row<T>>, nextId: nat, urlOf: T -> Value, records: seq<Record>, step: Record -> Result<T, Error>)
    requires forall i :: 0 <= i < |records| ==> step(records[i]).Ok? && Repository.ByUrl(rows, urlOf, urlOf(step(records[i]).value)).Some?
    ensures AddRun(rows, nextId, urlOf, records, step) == Ok(rows)
    decreases |records|
  {
    if records != [] {
      AddRunNoop(rows, nextId, urlOf, records[1..], step);
    }
  }

  /** Insert-if-absent is idempotent: a second walk over the same records, from
      what the first one left, succeeds and adds nothing. */
  lemma AddRunIdempotent<T>(rows: seq<Row<T>>, nextId: nat, later: nat, urlOf: T -> Value, records: seq<Record>, step: Record -> Result<T, Error>)
    requires AddRun(rows, nextId, urlOf, records, step).Ok?
    ensures var after := AddRun(rows, nextId, urlOf, records, step).value;
            AddRun(after, later, urlOf, records, step) == Ok(after)
  {
    AddRunCovers(rows, nextId, urlOf, records, step);
    AddRunNoop(AddRun(rows, nextId, urlOf, records, step).value, later, urlOf, records, step);
  }

  /** One record of the walk: look the url up and create the object only when
      the lookup finds nothing; with the url column unique, the create cannot fail. */
  method AddOne<T(!new)>(table: Table<T, Value>, urlOf: T -> Value, obj: T)
    requires table.Valid() && UrlKeyed(table.keyOf, urlOf)
    modifies table
    ensures table.Valid() && table.committed == old(table.committed)
    ensures Repository.ByUrl(old(table.rows), urlOf, urlOf(obj)).Some? ==>
              table.rows == old(table.rows) && table.nextId == old(table.nextId)
    ensures Repository.ByUrl(old(table.rows), urlOf, urlOf(obj)).None? ==>
              table.rows == old(table.rows) + [Row(old(table.nextId), obj)] && table.nextId == old(table.nextId) + 1
  {
    if Repository.ByUrl(table.rows, urlOf, urlOf(obj)).None? {
      NotFoundByUrlIsFree(table.rows, table.keyOf, urlOf, obj);
      var created := Create(table, obj);
    }
  }

  /** The insert-if-absent walk, in one transaction: commit once at the end, roll
      back on a normalisation error.  The lookup by url before each create means
      the unique constraint on url never refuses a flush. */
  method AddIfAbsent<T(!new)>(table: Table<T, Value>, urlOf: T -> Value, records: seq<Record>, step: Record -> Result<T, Error>)
    returns (r: Result<(), Error>)
    requires table.Valid() && table.Clean()
    requires UrlKeyed(table.keyOf, urlOf)
    modifies table
    ensures table.Valid() && table.Clean()
    ensures var run := AddRun(old(table.rows), old(table.nextId), urlOf, records, step);
            && (run.Ok? ==> r == Ok(()) && table.committed == run.value)
            && (run.Err? ==> r == Err(run.error) && table.committed == old(table.committed))
  {
    var i := 0;
    while i < |records|
      invariant 0 <= i <= |records|
      invariant table.Valid() && table.committed == old(table.committed)
      invariant UrlKeyed(table.keyOf, urlOf)
      invariant AddRun(old(table.rows), old(table.nextId), urlOf, records, step)
                == AddRun(table.rows, table.nextId, urlOf, records[i..], step)
    {
      AddRunAt(table.rows, table.nextId, urlOf, records, i, step);
      var normalised := step(records[i]);
      if normalised.Err? {
        table.Rollback();
        return Err(normalised.error);
      }
      AddOne(table, urlOf, normalised.value);
      i := i + 1;
    }
    assert records[i..] == [];
    table.Commit();
    r := Ok(());
  }
}
