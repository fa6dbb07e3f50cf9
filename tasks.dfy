/** The sync jobs (src/integrations/tasks.py): each job takes the collection
    the provider returned, normalises every record, hands it to the service's
    `create` and commits once after the loop; an exception anywhere leaves the
    session uncommitted, so the store keeps what it had.  There is no
    existence check before a create.  The fan-out job only enqueues the three
    others.  Fetching, the Celery queue and the event loop are not part of this
    model: the fetched collection is a parameter and the queue is a list of
    job names. */
module Tasks {
  import opened Values
  import opened Repository
  import Films
  import Characters
  import Starships

  /** The rows a job leaves in its session: each record, in fetch order, is
      normalised and created with the next id; the first normalisation error
      or unique-constraint refusal ends the job with that error. */
  function SyncRun<T, K(==)>(rows: seq<Row<T>>, nextId: nat, keyOf: T -> Option<K>, records: seq<Record>, step: Record -> Result<T, Error>): Result<seq<Row<T>>, Error>
    decreases |records|
  {
    if records == [] then Ok(rows)
    else match step(records[0])
      case Err(e) => Err(e)
      case Ok(obj) =>
        if KeyTaken(rows, keyOf, obj) then Err(IntegrityError)
        else SyncRun(rows + [Row(nextId, obj)], nextId + 1, keyOf, records[1..], step)
  }

  /** Every record normalises. */
  predicate AllNormalise<T>(records: seq<Record>, step: Record -> Result<T, Error>) {
    forall i :: 0 <= i < |records| ==> step(records[i]).Ok?
  }

  /** Every record normalises to an object whose unique value is free in
      `rows` and differs from that of every other record. */
  predicate Insertable<T, K(==)>(rows: seq<Row<T>>, keyOf: T -> Option<K>, records: seq<Record>, step: Record -> Result<T, Error>) {
    && AllNormalise(records, step)
    && (forall i :: 0 <= i < |records| ==> !KeyTaken(rows, keyOf, step(records[i]).value))
    && (forall i, j :: 0 <= i < j < |records| && keyOf(step(records[i]).value).Some? ==>
          keyOf(step(records[i]).value) != keyOf(step(records[j]).value))
  }

  /** A successful job appends one row per record, in fetch order, with
      consecutive ids; an empty collection leaves the rows as they were. */
  lemma {:induction false} SyncRunAppends<T, K>(rows: seq<Row<T>>, nextId: nat, keyOf: T -> Option<K>, records: seq<Record>, step: Record -> Result<T, Error>)
    requires SyncRun(rows, nextId, keyOf, records, step).Ok?
    ensures AllNormalise(records, step)
    ensures var after := SyncRun(rows, nextId, keyOf, records, step).value;
            && |after| == |rows| + |records|
            && after[..|rows|] == rows
            && forall i :: 0 <= i < |records| ==> after[|rows| + i] == Row(nextId + i, step(records[i]).value)
    decreases |records|
  {
    if records != [] {
      var obj := step(records[0]).value;
      var next := rows + [Row(nextId, obj)];
      SyncRunAppends(next, nextId + 1, keyOf, records[1..], step);
      var after := SyncRun(rows, nextId, keyOf, records, step).value;
      assert after == SyncRun(next, nextId + 1, keyOf, records[1..], step).value;
      assert after[..|next|] == next;
      assert after[..|rows|] == next[..|rows|];
      forall i | 0 <= i < |records|
        ensures step(records[i]).Ok? && after[|rows| + i] == Row(nextId + i, step(records[i]).value)
      {
        if i == 0 {
          assert after[|rows|] == next[|rows|];
        } else {
          assert records[1..][i - 1] == records[i];
          assert after[|next| + (i - 1)] == Row(nextId + 1 + (i - 1), step(records[1..][i - 1]).value);
        }
      }
    }
  }

  /** Appending a row can only take the unique value that row holds. */
  lemma KeyTakenAfterAppend<T, K>(rows: seq<Row<T>>, keyOf: T -> Option<K>, row: Row<T>, obj: T)
    ensures KeyTaken(rows + [row], keyOf, obj) <==>
              KeyTaken(rows, keyOf, obj) || (keyOf(obj).Some? && keyOf(row.obj) == keyOf(obj))
  {
    var r := rows + [row];
    if KeyTaken(r, keyOf, obj) {
      var i :| 0 <= i < |r| && keyOf(r[i].obj) == keyOf(obj);
      if i < |rows| { assert rows[i] == r[i]; }
    }
    if KeyTaken(rows, keyOf, obj) {
      var i :| 0 <= i < |rows| && keyOf(rows[i].obj) == keyOf(obj);
      assert r[i] == rows[i];
    }
    if keyOf(obj).Some? && keyOf(row.obj) == keyOf(obj) {
      assert r[|rows|] == row;
    }
  }

  /** A job succeeds exactly when every record normalises and no two created
      objects, and no created object and stored row, share a unique value. */
  lemma {:induction false} SyncRunSucceeds<T, K>(rows: seq<Row<T>>, nextId: nat, keyOf: T -> Option<K>, records: seq<Record>, step: Record -> Result<T, Error>)
    ensures SyncRun(rows, nextId, keyOf, records, step).Ok? <==> Insertable(rows, keyOf, records, step)
    decreases |records|
  {
    if records != [] {
      var tail := records[1..];
      assert forall i :: 1 <= i < |records| ==> records[i] == tail[i - 1];
      if step(records[0]).Ok? {
        var obj := step(records[0]).value;
        var row := Row(nextId, obj);
        var next := rows + [row];
        SyncRunSucceeds(next, nextId + 1, keyOf, tail, step);
        forall i | 0 <= i < |tail| && step(tail[i]).Ok?
          ensures KeyTaken(next, keyOf, step(tail[i]).value) <==>
                    KeyTaken(rows, keyOf, step(tail[i]).value) || (keyOf(step(tail[i]).value).Some? && keyOf(obj) == keyOf(step(tail[i]).value))
        {
          KeyTakenAfterAppend(rows, keyOf, row, step(tail[i]).value);
        }
        if Insertable(rows, keyOf, records, step) {
          assert !KeyTaken(rows, keyOf, obj);
          forall i | 0 <= i < |tail| ensures !KeyTaken(next, keyOf, step(tail[i]).value) {
            assert tail[i] == records[i + 1];
          }
          forall i, j | 0 <= i < j < |tail| && keyOf(step(tail[i]).value).Some?
            ensures keyOf(step(tail[i]).value) != keyOf(step(tail[j]).value)
          {
            assert tail[i] == records[i + 1] && tail[j] == records[j + 1];
          }
          assert Insertable(next, keyOf, tail, step);
        }
        if SyncRun(rows, nextId, keyOf, records, step).Ok? {
          assert !KeyTaken(rows, keyOf, obj);
          assert Insertable(next, keyOf, tail, step);
          forall i | 0 <= i < |records| ensures !KeyTaken(rows, keyOf, step(records[i]).value) {
            if i > 0 {
              var o := step(tail[i - 1]).value;
              assert !KeyTaken(next, keyOf, o);
            }
          }
          forall i, j | 0 <= i < j < |records| && keyOf(step(records[i]).value).Some?
            ensures keyOf(step(records[i]).value) != keyOf(step(records[j]).value)
          {
            if i == 0 {
              assert !KeyTaken(next, keyOf, step(tail[j - 1]).value);
            } else {
              assert tail[i - 1] == records[i] && tail[j - 1] == records[j];
            }
          }
        }
      } else {
        assert !AllNormalise(records, step);
      }
    }
  }

  /** No existence check: running a job again over the records it has just
      stored fails on the first record with a non-NULL unique value, and the
      rerun commits nothing. */
  lemma SyncRerunFails<T, K>(rows: seq<Row<T>>, nextId: nat, later: nat, keyOf: T -> Option<K>, records: seq<Record>, step: Record -> Result<T, Error>)
    requires SyncRun(rows, nextId, keyOf, records, step).Ok?
    requires records != [] && keyOf(step(records[0]).value).Some?
    ensures SyncRun(SyncRun(rows, nextId, keyOf, records, step).value, later, keyOf, records, step) == Err(IntegrityError)
  {
    SyncRunAppends(rows, nextId, keyOf, records, step);
    var after := SyncRun(rows, nextId, keyOf, records, step).value;
    assert after[|rows| + 0].obj == step(records[0]).value;
    assert KeyTaken(after, keyOf, step(records[0]).value);
  }

  /** The loop of a sync job, in the session of its own `with` block: create
      each normalised record through the service, commit once after the loop,
      and leave without committing (a rollback) when a record raises. */
  method SyncJob<T, K(==)>(table: Table<T, K>, records: seq<Record>, step: Record -> Result<T, Error>)
    returns (r: Result<(), Error>)
    requires table.Valid() && table.Clean()
    modifies table
    ensures table.Valid() && table.Clean()
    ensures var run := SyncRun(old(table.rows), old(table.nextId), table.keyOf, records, step);
            && (run.Ok? ==> r == Ok(()) && table.committed == run.value)
            && (run.Err? ==> r == Err(run.error) && table.committed == old(table.committed))
  {
    var i := 0;
    while i < |records|
      invariant 0 <= i <= |records|
      invariant table.Valid() && table.committed == old(table.committed)
      invariant SyncRun(old(table.rows), old(table.nextId), table.keyOf, records, step)
                == SyncRun(table.rows, table.nextId, table.keyOf, records[i..], step)
    {
      assert records[i..][0] == records[i] && records[i..][1..] == records[i + 1..];
      var obj := step(records[i]);
      if obj.Err? {
        table.Rollback();
        return Err(obj.error);
      }
      var created := table.Create(obj.value);
      if created.Err? {
        table.Rollback();
        return Err(created.error);
      }
      i := i + 1;
    }
    assert records[i..] == [];
    table.Commit();
    r := Ok(());
  }

  // ----- the three jobs -----

  /** The per-record step of `sync_films` as written: after `from_dict`, the
      log line reads `title` as an attribute of the fetched dict, which a dict
      does not have. */
  function FilmStepAsWritten(parse: string -> Result<DateTime, Error>): Record -> Result<Films.Film, Error> {
    data =>
      match Films.FromDict(data, parse)
      case Err(e) => Err(e)
      case Ok(_) => Err(AttributeError("title"))
  }

  /** `sync_films` as written: any non-empty collection of films ends in an
      exception before the first create, and nothing is committed. */
  method SyncFilmsAsWritten(table: Table<Films.Film, Value>, films: seq<Record>, parse: string -> Result<DateTime, Error>)
    returns (r: Result<(), Error>)
    requires table.Valid() && table.Clean()
    modifies table
    ensures table.Valid() && table.Clean()
    ensures films != [] ==> r.Err? && table.committed == old(table.committed)
    ensures films == [] ==> r == Ok(()) && table.committed == old(table.committed)
  {
    r := SyncJob(table, films, FilmStepAsWritten(parse));
  }

  /** Whatever the films and the store hold, the step as written never yields a film. */
  lemma FilmStepAsWrittenNeverSucceeds(data: Record, parse: string -> Result<DateTime, Error>)
    ensures FilmStepAsWritten(parse)(data).Err?
    ensures Films.FromDict(data, parse).Ok? ==> FilmStepAsWritten(parse)(data) == Err(AttributeError("title"))
  {
  }

  /** The per-record step of `sync_films` as evidently intended: `from_dict`
      alone (the log line naming the built film's title). */
  function FilmStep(parse: string -> Result<DateTime, Error>): Record -> Result<Films.Film, Error> {
    data => Films.FromDict(data, parse)
  }

  /** `sync_films` with the log line reading the film's title. */
  method SyncFilms(table: Table<Films.Film, Value>, films: seq<Record>, parse: string -> Result<DateTime, Error>)
    returns (r: Result<(), Error>)
    requires table.Valid() && table.Clean()
    modifies table
    ensures table.Valid() && table.Clean()
    ensures var run := SyncRun(old(table.rows), old(table.nextId), table.keyOf, films, FilmStep(parse));
            && (run.Ok? ==> r == Ok(()) && table.committed == run.value)
            && (run.Err? ==> r == Err(run.error) && table.committed == old(table.committed))
  {
    r := SyncJob(table, films, FilmStep(parse));
  }

  /** With the intended step, films that `from_dict` accepts and whose urls
      are fresh and distinct are all stored, in fetch order, with their titles. */
  lemma SyncFilmsInserts(rows: seq<Row<Films.Film>>, nextId: nat, films: seq<Record>, parse: string -> Result<DateTime, Error>)
    requires Insertable(rows, Films.KeyOf, films, FilmStep(parse))
    ensures SyncRun(rows, nextId, Films.KeyOf, films, FilmStep(parse)).Ok?
    ensures var after := SyncRun(rows, nextId, Films.KeyOf, films, FilmStep(parse)).value;
            && |rows| <= |after| && after[..|rows|] == rows
            && var added := after[|rows|..];
            && |added| == |films|
            && forall i :: 0 <= i < |films| ==> added[i].id == nextId + i && added[i].obj.title == films[i]["title"]
  {
    var step := FilmStep(parse);
    assert SyncRun(rows, nextId, Films.KeyOf, films, step).Ok? by {
      SyncRunSucceeds(rows, nextId, Films.KeyOf, films, step);
    }
    SyncRunAppends(rows, nextId, Films.KeyOf, films, step);
    var after := SyncRun(rows, nextId, Films.KeyOf, films, step).value;
    var added := after[|rows|..];
    forall i | 0 <= i < |films|
      ensures added[i].id == nextId + i && added[i].obj.title == films[i]["title"]
    {
      assert added[i] == after[|rows| + i] == Row(nextId + i, step(films[i]).value);
      FilmStepTitle(films[i], parse);
    }
  }

  /** A film the intended step builds carries the record's title. */
  lemma FilmStepTitle(data: Record, parse: string -> Result<DateTime, Error>)
    requires FilmStep(parse)(data).Ok?
    ensures "title" in data && FilmStep(parse)(data).value.title == data["title"]
  {
  }

  /** One record of `sync_characters` as written: `Character.from_dict`, then
      `service.create`, which `CharacterService` does not define, so the call
      raises `AttributeError` for every record `from_dict` accepts. */
  function CharacterStepAsWritten(fromDict: Record -> Result<Characters.Character, Error>): Record -> Result<Characters.Character, Error> {
    data =>
      match fromDict(data)
      case Err(e) => Err(e)
      case Ok(_) => Err(AttributeError("create"))
  }

  /** Whatever the normaliser and the records, a character record never reaches the store as written. */
  lemma CharacterStepAsWrittenNeverSucceeds(data: Record, fromDict: Record -> Result<Characters.Character, Error>)
    ensures CharacterStepAsWritten(fromDict)(data).Err?
    ensures fromDict(data).Ok? ==> CharacterStepAsWritten(fromDict)(data) == Err(AttributeError("create"))
  {
  }

  /** `sync_characters` as written: any non-empty collection ends in an
      exception at its first record, and nothing is committed. */
  method SyncCharactersAsWritten(table: Table<Characters.Character, Value>, characters: seq<Record>, fromDict: Record -> Result<Characters.Character, Error>)
    returns (r: Result<(), Error>)
    requires table.Valid() && table.Clean()
    modifies table
    ensures table.Valid() && table.Clean()
    ensures characters != [] ==> r.Err? && table.committed == old(table.committed)
    ensures characters == [] ==> r == Ok(()) && table.committed == old(table.committed)
  {
    r := SyncJob(table, characters, CharacterStepAsWritten(fromDict));
  }

  /** `sync_characters` with the create it evidently means, the generic
      service's, and `Character.from_dict` as the step. */
  method SyncCharacters(table: Table<Characters.Character, Value>, characters: seq<Record>, fromDict: Record -> Result<Characters.Character, Error>)
    returns (r: Result<(), Error>)
    requires table.Valid() && table.Clean()
    modifies table
    ensures table.Valid() && table.Clean()
    ensures var run := SyncRun(old(table.rows), old(table.nextId), table.keyOf, characters, fromDict);
            && (run.Ok? ==> r == Ok(()) && table.committed == run.value)
            && (run.Err? ==> r == Err(run.error) && table.committed == old(table.committed))
  {
    r := SyncJob(table, characters, fromDict);
  }

  /** With the service's create, characters that normalise with fresh distinct
      urls are all stored after the existing rows, in fetch order, each as its
      record normalises. */
  lemma SyncCharactersInserts(rows: seq<Row<Characters.Character>>, nextId: nat, characters: seq<Record>, fromDict: Record -> Result<Characters.Character, Error>)
    requires Insertable(rows, Characters.KeyOf, characters, fromDict)
    ensures SyncRun(rows, nextId, Characters.KeyOf, characters, fromDict).Ok?
    ensures var after := SyncRun(rows, nextId, Characters.KeyOf, characters, fromDict).value;
            && |rows| <= |after| && after[..|rows|] == rows
            && var added := after[|rows|..];
            && |added| == |characters|
            && forall i :: 0 <= i < |characters| ==> added[i] == Row(nextId + i, fromDict(characters[i]).value)
  {
    assert SyncRun(rows, nextId, Characters.KeyOf, characters, fromDict).Ok? by {
      SyncRunSucceeds(rows, nextId, Characters.KeyOf, characters, fromDict);
    }
    SyncRunAppends(rows, nextId, Characters.KeyOf, characters, fromDict);
    var after := SyncRun(rows, nextId, Characters.KeyOf, characters, fromDict).value;
    var added := after[|rows|..];
    forall i | 0 <= i < |characters| ensures added[i] == Row(nextId + i, fromDict(characters[i]).value) {
      assert added[i] == after[|rows| + i];
    }
  }

  /** `sync_starships`, with `Starship.from_dict` as the step. */
  method SyncStarships(table: Table<Starships.Starship, Value>, starships: seq<Record>, fromDict: Record -> Result<Starships.Starship, Error>)
    returns (r: Result<(), Error>)
    requires table.Valid() && table.Clean()
    modifies table
    ensures table.Valid() && table.Clean()
    ensures var run := SyncRun(old(table.rows), old(table.nextId), table.keyOf, starships, fromDict);
            && (run.Ok? ==> r == Ok(()) && table.committed == run.value)
            && (run.Err? ==> r == Err(run.error) && table.committed == old(table.committed))
  {
    r := SyncJob(table, starships, fromDict);
  }

  // ----- the fan-out -----

  datatype Job = SyncFilmsJob | SyncCharactersJob | SyncStarshipsJob

  /** The task queue, as the list of jobs enqueued so far. */
  class JobQueue {
    var queued: seq<Job>

    constructor ()
      ensures queued == []
    {
      queued := [];
    }

    /** `job.delay()`. */
    method Enqueue(job: Job)
      modifies this
      ensures queued == old(queued) + [job]
    {
      queued := queued + [job];
    }
  }

  /** `sync_plugins_with_db`: enqueue the film, character and starship jobs, in
      that order, and touch no table. */
  method SyncPluginsWithDb(queue: JobQueue)
    modifies queue
    ensures queue.queued == old(queue.queued) + [SyncFilmsJob, SyncCharactersJob, SyncStarshipsJob]
  {
    queue.Enqueue(SyncFilmsJob);
    queue.Enqueue(SyncCharactersJob);
    queue.Enqueue(SyncStarshipsJob);
  }
}
