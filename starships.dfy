/** The starship slice of the catalog (src/starships): the mapped starship
    and the name search the starship repository selects.  Its normaliser
    `Starship.from_dict` is not part of this model. */
module Starships {
  import opened Values
  import opened Repository

  /** A stored starship; every column holds the provider's value as given. */
  datatype Starship = Starship(
    name: Value,
    model: Value,
    manufacturer: Value,
    costInCredits: Value,
    length: Value,
    maxAtmospheringSpeed: Value,
    crew: Value,
    passengers: Value,
    cargoCapacity: Value,
    consumables: Value,
    hyperdriveRating: Value,
    mglt: Value,
    starshipClass: Value,
    url: Value)

  function UrlOf(s: Starship): Value { s.url }

  /** The unique column of the starships table. */
  function KeyOf(s: Starship): Option<Value> { UrlKey(s.url) }

  /** The attribute the starship search looks at (`SEARCH_QUERY_ATTR = "name"`). */
  function NameOf(s: Starship): Option<string> {
    if s.name.Str? then Some(s.name.s) else None
  }

  /** `StarshipRepository.search(q)`: the starships whose name contains `q`
      ignoring case, in id order, at most `SearchLimit`. */
  function Search(rows: seq<Row<Starship>>, q: string): (r: seq<Row<Starship>>)
    ensures |r| == Min(SearchLimit, |Matching(rows, NameOf, q)|)
    ensures r == Matching(rows, NameOf, q)[..|r|]
    ensures IdsAscending(rows) ==> IdsAscending(r)
    ensures forall k :: 0 <= k < |r| ==> r[k] in rows && r[k].obj.name.Str? && ContainsIgnoringCase(r[k].obj.name.s, q)
    ensures r == [] <==> forall k :: 0 <= k < |rows| ==> !Matches(NameOf(rows[k].obj), q)
  {
    Repository.Search(rows, NameOf, q)
  }

  /** A starship found by the generic `by_url` is the only one with that url. */
  lemma ByUrlFindsTheStarship(rows: seq<Row<Starship>>, k: nat)
    requires KeysUnique(rows, KeyOf)
    requires k < |rows| && rows[k].obj.url != Null
    ensures Repository.ByUrl(rows, UrlOf, rows[k].obj.url) == Some(rows[k])
  {
    ByUrlAtMostOne(rows, KeyOf, UrlOf, rows[k].obj.url, k);
  }
}
