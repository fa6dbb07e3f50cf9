/** The character slice of the catalog (src/characters): the mapped
    character, the repository's name search, and the character service's
    own `get`, `list` and `search`, plus the insert-if-absent walk its tests
    assert as `add_characters`. */
module Characters {
  import opened Values
  import opened Repository
  import Service

  /** A stored character.  `name` is NOT NULL; the url column is unique with
      NULLs exempt, like the other catalog entities. */
  datatype Character = Character(
    name: string,
    height: Option<int>,
    hairColor: Option<string>,
    skinColor: Option<string>,
    eyeColor: Option<string>,
    birthYear: Option<string>,
    gender: Option<string>,
    url: Value)

  function UrlOf(c: Character): Value { c.url }

  /** The unique column of the characters table. */
  function KeyOf(c: Character): Option<Value> { UrlKey(c.url) }

  /** The attribute the character search looks at. */
  function NameOf(c: Character): Option<string> { Some(c.name) }

  lemma KeyIsUrl()
    ensures UrlKeyed(KeyOf, UrlOf)
  {
  }

  /** The not-found message of the character service. */
  function NotFoundDetail(id: int): string {
    "Character with ID " + IntToString(id) + " not found."
  }

  /** `CharacterService.get(id)`: the character with that id, or the
      character-specific not-found error. */
  function Get(rows: seq<Row<Character>>, id: int): (r: Result<Row<Character>, Error>)
    ensures r.Ok? <==> exists k :: 0 <= k < |rows| && rows[k].id == id
    ensures r.Ok? ==> r.value in rows && r.value.id == id
    ensures r.Err? ==> r.error == NotFound(NotFoundDetail(id))
  {
    match Repository.Get(rows, id)
    case None => Err(NotFound(NotFoundDetail(id)))
    case Some(row) => Ok(row)
  }

  /** The character service raises its own error where the generic service
      raises the generic one; on success both return the same row. */
  lemma GetAgreesWithGeneric(rows: seq<Row<Character>>, id: int)
    ensures Get(rows, id).Ok? <==> Service.Get(rows, id).Ok?
    ensures Get(rows, id).Ok? ==> Get(rows, id) == Service.Get(rows, id)
    ensures Get(rows, id).Err? ==> Get(rows, id).error.detail != Service.Get(rows, id).error.detail
  {
    if Get(rows, id).Err? {
      assert NotFoundDetail(id)[0] == 'C';
      assert Service.NotFoundDetail(IntToString(id))[0] == 'O';
    }
  }

  /** `CharacterService.list(page, page_size)`, which repeats the generic
      pagination code line for line: it is the generic listing, so it clamps,
      slices and counts pages by the same rules. */
  function List(rows: seq<Row<Character>>, page: int, pageSize: int): (r: Service.Page<Character>)
    ensures r == Service.ListPage(rows, page, pageSize)
    ensures Service.PageValid(r)
  {
    var p := if page < 1 then 1 else page;
    var size := if pageSize < 1 then 1 else if pageSize > Service.MaxPageSize then Service.MaxPageSize else pageSize;
    var items := Repository.List(rows, size, Service.Offset(p, size));
    var total := Count(rows);
    Service.Page(items, total, p, size, Service.PageCount(total, size))
  }

  /** With at least ten characters, the first page of five holds five of them. */
  lemma FirstPageOfFive(rows: seq<Row<Character>>)
    requires |rows| >= 10
    ensures var r := List(rows, 1, 5);
            |r.items| == 5 && r.items == rows[..5] && r.page == 1 && r.pageSize == 5 && r.total >= 10
  {
    Service.FirstPageOfFive(rows);
    var r := List(rows, 1, 5);
    assert forall k :: 0 <= k < 5 ==> r.items[k] == rows[k];
  }

  /** `CharacterRepository.search(q)`, returned unchanged by
      `CharacterService.search`: the characters whose name contains `q`
      ignoring case, in id order, at most `SearchLimit` of them. */
  function Search(rows: seq<Row<Character>>, q: string): (r: seq<Row<Character>>)
    ensures |r| == Min(SearchLimit, |Matching(rows, NameOf, q)|)
    ensures r == Matching(rows, NameOf, q)[..|r|]
    ensures forall k :: 0 <= k < |r| ==> r[k] in rows && ContainsIgnoringCase(r[k].obj.name, q)
    ensures IdsAscending(rows) ==> IdsAscending(r)
    ensures r == [] <==> forall k :: 0 <= k < |rows| ==> !ContainsIgnoringCase(rows[k].obj.name, q)
  {
    Repository.Search(rows, NameOf, q)
  }

  /** Searching a character's exact name finds that character, unless fifty
      other characters whose names contain it come first. */
  lemma ExactNameFound(rows: seq<Row<Character>>, k: nat)
    requires k < |rows|
    requires |Matching(rows[..k], NameOf, rows[k].obj.name)| < SearchLimit
    ensures rows[k] in Search(rows, rows[k].obj.name)
    ensures exists j :: 0 <= j < |Search(rows, rows[k].obj.name)| && Search(rows, rows[k].obj.name)[j].obj.name == rows[k].obj.name
  {
    var name := rows[k].obj.name;
    ContainsOwnPrefix(name, |name|);
    SearchFinds(rows, NameOf, name, k);
    var r := Search(rows, name);
    var j :| 0 <= j < |r| && r[j] == rows[k];
  }

  /** A three-letter prefix of a stored name always yields at least one result. */
  lemma PrefixFindsSomething(rows: seq<Row<Character>>, k: nat)
    requires k < |rows| && |rows[k].obj.name| >= 3
    ensures |Search(rows, rows[k].obj.name[..3])| >= 1
  {
    ContainsOwnPrefix(rows[k].obj.name, 3);
  }

  /** `add_characters` (asserted by the service tests only): in one
      transaction, look each normalised record up by url and create it
      through the service only when the lookup reports not-found. */
  method AddCharacters(table: Table<Character, Value>, records: seq<Record>, fromDict: Record -> Result<Character, Error>)
    returns (r: Result<(), Error>)
    requires table.Valid() && table.Clean() && table.keyOf == KeyOf
    modifies table
    ensures table.Valid() && table.Clean()
    ensures var run := Service.AddRun(old(table.rows), old(table.nextId), UrlOf, records, fromDict);
            && (run.Ok? ==> r == Ok(()) && table.committed == run.value)
            && (run.Err? ==> r == Err(run.error) && table.committed == old(table.committed))
  {
    KeyIsUrl();
    r := Service.AddIfAbsent(table, UrlOf, records, fromDict);
  }
}
