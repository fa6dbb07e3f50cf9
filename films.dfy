/** The film slice of the catalog (src/films): the mapped film, the
    normaliser `Film.from_dict` that turns a provider record into a film, and
    the title search the film repository selects. */
module Films {
  import opened Values
  import opened Repository

  /** What `release_date` holds after `from_dict`: the value as given when it
      is falsy, or the timestamp parsed from it. */
  datatype ReleaseDate = Raw(v: Value) | Parsed(at: DateTime)

  /** A film as `from_dict` builds it.  A new film starts with no linked
      characters and no linked starships. */
  datatype Film = Film(
    title: Value,
    openingCrawl: Value,
    director: Value,
    producer: Value,
    releaseDate: ReleaseDate,
    url: Value,
    characters: seq<nat>,
    starships: seq<nat>)

  function UrlOf(f: Film): Value { f.url }

  /** The unique column of the films table (`url`, nullable). */
  function KeyOf(f: Film): Option<Value> { UrlKey(f.url) }

  /** The keys `from_dict` reads; every other key of the record is ignored. */
  const ReadKeys: set<string> := {"release_date", "title", "opening_crawl", "director", "producer", "url"}

  /** The release date step of `from_dict`: a truthy value is handed to
      `fromisoformat` (`parse`, whose own errors pass through; a value that is
      not a string is refused with a type error), a falsy one is kept as it is. */
  function ReleaseDateOf(v: Value, parse: string -> Result<DateTime, Error>): (r: Result<ReleaseDate, Error>)
    ensures !Truthy(v) ==> r == Ok(Raw(v))
    ensures Truthy(v) && v.Str? ==> r.Ok? == parse(v.s).Ok?
    ensures Truthy(v) && v.Str? && r.Ok? ==> r.value == Parsed(parse(v.s).value)
    ensures Truthy(v) && v.Str? && r.Err? ==> r.error == parse(v.s).error
    ensures Truthy(v) && !v.Str? ==> r == Err(TypeError)
  {
    if !Truthy(v) then Ok(Raw(v))
    else match v
      case Str(s) =>
        (match parse(s)
         case Ok(at) => Ok(Parsed(at))
         case Err(e) => Err(e))
      case _ => Err(TypeError)
  }

  /** `Film.from_dict(data)`.  The release date is looked at first, so its
      error wins over a missing title; `title` is required, the other columns
      default to NULL. */
  function FromDict(data: Record, parse: string -> Result<DateTime, Error>): (r: Result<Film, Error>)
    ensures r.Ok? <==> "title" in data && ReleaseDateOf(Lookup(data, "release_date"), parse).Ok?
    ensures ReleaseDateOf(Lookup(data, "release_date"), parse).Err? ==>
              r == Err(ReleaseDateOf(Lookup(data, "release_date"), parse).error)
    ensures ReleaseDateOf(Lookup(data, "release_date"), parse).Ok? && "title" !in data ==> r == Err(KeyError("title"))
    ensures r.Ok? ==>
              && r.value.title == data["title"]
              && r.value.openingCrawl == Lookup(data, "opening_crawl")
              && r.value.director == Lookup(data, "director")
              && r.value.producer == Lookup(data, "producer")
              && r.value.url == Lookup(data, "url")
              && r.value.characters == [] && r.value.starships == []
  {
    match ReleaseDateOf(Lookup(data, "release_date"), parse)
    case Err(e) => Err(e)
    case Ok(date) =>
      if "title" !in data then Err(KeyError("title"))
      else Ok(Film(data["title"], Lookup(data, "opening_crawl"), Lookup(data, "director"),
                   Lookup(data, "producer"), date, Lookup(data, "url"), [], []))
  }

  /** A key `from_dict` does not read (`episode_id`, the related lists, ...)
      makes no difference to the film it builds. */
  lemma FromDictIgnoresOtherKeys(data: Record, key: string, v: Value, parse: string -> Result<DateTime, Error>)
    requires key !in ReadKeys
    ensures FromDict(data[key := v], parse) == FromDict(data, parse)
  {
    assert forall k :: k in ReadKeys ==> Lookup(data[key := v], k) == Lookup(data, k);
  }

  /** An absent release date and an empty one both pass through unparsed,
      whatever the parser would say. */
  lemma FalsyReleaseDateNotParsed(data: Record, parse: string -> Result<DateTime, Error>)
    requires "title" in data
    requires Lookup(data, "release_date") in {Null, Str("")}
    ensures FromDict(data, parse).Ok?
    ensures FromDict(data, parse).value.releaseDate == Raw(Lookup(data, "release_date"))
  {
  }

  /** `from_dict` followed by `create`: the new row keeps the record's title and
      gets the next id; the url column's uniqueness is the only way the create
      can fail. */
  method CreateFromDict(table: Table<Film, Value>, data: Record, parse: string -> Result<DateTime, Error>)
    returns (r: Result<Row<Film>, Error>)
    requires table.Valid()
    modifies table
    ensures table.Valid() && table.committed == old(table.committed)
    ensures FromDict(data, parse).Err? ==> r == Err(FromDict(data, parse).error) && table.rows == old(table.rows)
    ensures FromDict(data, parse).Ok? && !KeyTaken(old(table.rows), table.keyOf, FromDict(data, parse).value) ==>
              && r.Ok? && r.value.id == old(table.nextId) && r.value.obj.title == data["title"]
              && table.rows == old(table.rows) + [r.value]
    ensures FromDict(data, parse).Ok? && KeyTaken(old(table.rows), table.keyOf, FromDict(data, parse).value) ==>
              r == Err(IntegrityError) && table.rows == old(table.committed)
  {
    var film := FromDict(data, parse);
    if film.Err? {
      return Err(film.error);
    }
    r := table.Create(film.value);
  }

  /** The attribute the film search looks at (`SEARCH_QUERY_ATTR = "title"`);
      a title that is not a string never matches. */
  function TitleOf(f: Film): Option<string> {
    if f.title.Str? then Some(f.title.s) else None
  }

  /** `FilmRepository.search(q)`: the films whose title contains `q` ignoring
      case, in id order, at most `SearchLimit`. */
  function Search(rows: seq<Row<Film>>, q: string): (r: seq<Row<Film>>)
    ensures |r| == Min(SearchLimit, |Matching(rows, TitleOf, q)|)
    ensures r == Matching(rows, TitleOf, q)[..|r|]
    ensures IdsAscending(rows) ==> IdsAscending(r)
    ensures forall k :: 0 <= k < |r| ==> r[k] in rows && r[k].obj.title.Str? && ContainsIgnoringCase(r[k].obj.title.s, q)
    ensures r == [] <==> forall k :: 0 <= k < |rows| ==> !Matches(TitleOf(rows[k].obj), q)
  {
    Repository.Search(rows, TitleOf, q)
  }

  /** The first three letters of a stored title find at least one film. */
  lemma TitlePrefixFindsSomething(rows: seq<Row<Film>>, k: nat)
    requires k < |rows| && rows[k].obj.title.Str? && |rows[k].obj.title.s| >= 3
    ensures |Search(rows, rows[k].obj.title.s[..3])| >= 1
  {
    ContainsOwnPrefix(rows[k].obj.title.s, 3);
  }
}
