/**
 * The catalog service: exact lookups, the list of distinct types, the
 * favourite relation between users and pokemon, and the filtered, paged
 * listing.
 *
 * The catalog is a table of pokemon rows; the favourite relation is the
 * join table, a set of (user id, pokemon id) links. Reads are functions of a
 * snapshot of both; only `AddFavorite` and `RemoveFavorite` write.
 */
module Catalog {
  import opened Wrappers
  import opened Repository
  import opened Postgres
  import Auth

  /** A catalog row; `types` is stored as one comma-delimited string. */
  datatype Pokemon = Pokemon(id: int, name: string, types: string)

  /** A row of the favourite join table. */
  datatype Favorite = Favorite(userId: int, pokemonId: int)

  const PokemonNotFound := "Pokemon not found"

  predicate UniqueIds(pokemons: seq<Pokemon>) {
    forall j, k :: 0 <= j < |pokemons| && 0 <= k < |pokemons| && pokemons[j].id == pokemons[k].id ==> j == k
  }

  predicate UniqueNames(pokemons: seq<Pokemon>) {
    forall j, k :: 0 <= j < |pokemons| && 0 <= k < |pokemons| && pokemons[j].name == pokemons[k].name ==> j == k
  }

  predicate NoDuplicates<T(==)>(s: seq<T>) {
    forall j, k :: 0 <= j < k < |s| ==> s[j] != s[k]
  }

  // ---------------------------------------------------------------------------
  // Exact lookups
  // ---------------------------------------------------------------------------

  function FindById(pokemons: seq<Pokemon>, id: int): (r: Result<Pokemon, HttpError>)
    ensures r.Ok? <==> exists k :: 0 <= k < |pokemons| && pokemons[k].id == id
    ensures r.Ok? ==> r.value in pokemons && r.value.id == id
    ensures r.Err? ==> r.error == NotFound(PokemonNotFound)
  {
    match FindOneBy(pokemons, (p: Pokemon) => p.id == id)
    case None => Err(NotFound(PokemonNotFound))
    case Some(p) => Ok(p)
  }

  function FindByName(pokemons: seq<Pokemon>, name: string): (r: Result<Pokemon, HttpError>)
    ensures r.Ok? <==> exists k :: 0 <= k < |pokemons| && pokemons[k].name == name
    ensures r.Ok? ==> r.value in pokemons && r.value.name == name
    ensures r.Err? ==> r.error == NotFound(PokemonNotFound)
  {
    match FindOneBy(pokemons, (p: Pokemon) => p.name == name)
    case None => Err(NotFound(PokemonNotFound))
    case Some(p) => Ok(p)
  }

  /** Ids are the primary key, so a stored pokemon is exactly what its id finds. */
  lemma FindByIdExact(pokemons: seq<Pokemon>, p: Pokemon)
    requires UniqueIds(pokemons) && p in pokemons
    ensures FindById(pokemons, p.id) == Ok(p)
  {
    FindOneByUnique(pokemons, (q: Pokemon) => q.id == p.id, p);
  }

  /** Names are unique, so a stored pokemon is exactly what its name finds. */
  lemma FindByNameExact(pokemons: seq<Pokemon>, p: Pokemon)
    requires UniqueNames(pokemons) && p in pokemons
    ensures FindByName(pokemons, p.name) == Ok(p)
  {
    FindOneByUnique(pokemons, (q: Pokemon) => q.name == p.name, p);
  }

  // ---------------------------------------------------------------------------
  // Distinct types: SELECT DISTINCT unnest(string_to_array(types, ',')) FROM pokemon
  // ---------------------------------------------------------------------------

  /** Every component of every row's `types`, row by row. */
  function TypeLabels(pokemons: seq<Pokemon>): (labels: seq<string>)
    ensures forall t :: t in labels <==> exists k :: 0 <= k < |pokemons| && t in StringToArray(pokemons[k].types)
    decreases |pokemons|
  {
    if |pokemons| == 0 then []
    else
      var rest := TypeLabels(pokemons[1..]);
      assert forall t :: (exists k :: 0 <= k < |pokemons| && t in StringToArray(pokemons[k].types))
                       <==> t in StringToArray(pokemons[0].types) || t in rest by {
        forall t ensures (exists k :: 0 <= k < |pokemons| && t in StringToArray(pokemons[k].types))
                         <==> t in StringToArray(pokemons[0].types) || t in rest {
          if t in rest {
            var k :| 0 <= k < |pokemons[1..]| && t in StringToArray(pokemons[1..][k].types);
            assert pokemons[1..][k] == pokemons[k + 1];
          }
          if exists k :: 0 <= k < |pokemons| && t in StringToArray(pokemons[k].types) {
            var k :| 0 <= k < |pokemons| && t in StringToArray(pokemons[k].types);
            if k > 0 { assert pokemons[k] == pokemons[1..][k - 1]; }
          }
        }
      }
      StringToArray(pokemons[0].types) + rest
  }

  /** `DISTINCT`: the values of `xs`, each once, in order of first appearance. */
  function Distinct(xs: seq<string>): (r: seq<string>)
    ensures NoDuplicates(r)
    ensures forall x :: x in r <==> x in xs
    decreases |xs|
  {
    if |xs| == 0 then []
    else
      var d := Distinct(xs[..|xs| - 1]);
      var last := xs[|xs| - 1];
      assert xs == xs[..|xs| - 1] + [last];
      if last in d then d else d + [last]
  }

  /**
   * The distinct comma-separated type labels across the whole catalog. The
   * query has no ORDER BY; the model lists labels in order of first appearance.
   */
  function FindAllTypes(pokemons: seq<Pokemon>): (r: seq<string>)
    ensures NoDuplicates(r)
    ensures forall t :: t in r <==> exists k :: 0 <= k < |pokemons| && t in StringToArray(pokemons[k].types)
  {
    Distinct(TypeLabels(pokemons))
  }

  // ---------------------------------------------------------------------------
  // Listing: the query builder and its WHERE clauses
  // ---------------------------------------------------------------------------

  /** The listing parameters after validation (`PokemonsQueryInput`). */
  datatype QueryInput = QueryInput(offset: int, limit: int, search: Option<string>,
                                   typeFilter: Option<string>, isFavorite: Option<bool>)

  /** One condition of the WHERE expression the builder accumulates. */
  datatype Clause =
    | NameILike(pattern: string)     // pokemon.name ILIKE '%pattern%'
    | TypesILike(pattern: string)    // pokemon.types ILIKE '%pattern%'
    | FavoritedBy(userId: int)       // inner join on the favourite links, users.id = userId
    | FavoritedByNobody              // left join on the favourite links, users.id IS NULL

  /** A text parameter installs a clause only when it is a non-empty string (JavaScript truthiness). */
  predicate Given(s: Option<string>) {
    s.Some? && s.value != ""
  }

  /** Filtering by favourite status needs a caller. */
  predicate FavoriteFilterWithoutCaller(q: QueryInput, user: Option<Auth.User>) {
    q.isFavorite.Some? && user.None?
  }

  /**
   * The WHERE clauses the query builder ends up with. Search and type are
   * added with `andWhere`; a favourite filter is installed with `where`,
   * which replaces every clause before it, so once `isFavorite` is given the
   * search and type filters are dropped. This follows the code as written.
   */
  function BuildWhere(q: QueryInput, user: Option<Auth.User>): (r: Result<seq<Clause>, HttpError>)
    ensures r.Err? <==> FavoriteFilterWithoutCaller(q, user)
    ensures r.Err? ==> r.error == Forbidden
  {
    var clauses := (if Given(q.search) then [NameILike(q.search.value)] else [])
                 + (if Given(q.typeFilter) then [TypesILike(q.typeFilter.value)] else []);
    match q.isFavorite
    case None => Ok(clauses)
    case Some(favorite) =>
      if user.None? then Err(Forbidden)
      else if favorite then Ok([FavoritedBy(user.value.id)])
      else Ok([FavoritedByNobody])
  }

  /**
   * Whether row `p` meets one clause: the case-insensitive pattern occurs in
   * the column, the inner join finds a link from the user to the row, or the
   * left join finds no link to the row at all.
   */
  function Holds(c: Clause, p: Pokemon, favorites: set<Favorite>): (b: bool)
    ensures c.NameILike? ==> (b <==> exists i :: OccursAt(Lower(p.name), Lower(c.pattern), i))
    ensures c.TypesILike? ==> (b <==> exists i :: OccursAt(Lower(p.types), Lower(c.pattern), i))
    ensures c.FavoritedBy? ==> (b <==> exists f :: f in favorites && f.userId == c.userId && f.pokemonId == p.id)
    ensures c.FavoritedByNobody? ==> (b <==> !exists f :: f in favorites && f.pokemonId == p.id)
  {
    match c
    case NameILike(pattern) => ILikeSubstring(p.name, pattern)
    case TypesILike(pattern) => ILikeSubstring(p.types, pattern)
    case FavoritedBy(userId) => Favorite(userId, p.id) in favorites
    case FavoritedByNobody => forall f | f in favorites :: f.pokemonId != p.id
  }

  predicate AllHold(clauses: seq<Clause>, p: Pokemon, favorites: set<Favorite>) {
    forall k :: 0 <= k < |clauses| ==> Holds(clauses[k], p, favorites)
  }

  /** The rows the WHERE expression admits, in catalog order, each as often as it is stored. */
  function Select(pokemons: seq<Pokemon>, favorites: set<Favorite>, clauses: seq<Clause>): (rows: seq<Pokemon>)
    ensures |rows| <= |pokemons|
    ensures forall p :: multiset(rows)[p] == if AllHold(clauses, p, favorites) then multiset(pokemons)[p] else 0
    decreases |pokemons|
  {
    if |pokemons| == 0 then []
    else
      var rest := Select(pokemons[1..], favorites, clauses);
      assert pokemons == [pokemons[0]] + pokemons[1..];
      if AllHold(clauses, pokemons[0], favorites) then [pokemons[0]] + rest else rest
  }

  /**
   * The condition a listed pokemon meets, stated on the query itself rather
   * than on the clauses the builder produces.
   */
  predicate Wanted(p: Pokemon, favorites: set<Favorite>, q: QueryInput, user: Option<Auth.User>)
    requires !FavoriteFilterWithoutCaller(q, user)
  {
    match q.isFavorite
    case Some(true) => Favorite(user.value.id, p.id) in favorites
    case Some(false) => forall f | f in favorites :: f.pokemonId != p.id
    case None =>
      && (Given(q.search) ==> ILikeSubstring(p.name, q.search.value))
      && (Given(q.typeFilter) ==> ILikeSubstring(p.types, q.typeFilter.value))
  }

  lemma BuildWhereMeansWanted(p: Pokemon, favorites: set<Favorite>, q: QueryInput, user: Option<Auth.User>)
    requires !FavoriteFilterWithoutCaller(q, user)
    ensures AllHold(BuildWhere(q, user).value, p, favorites) <==> Wanted(p, favorites, q, user)
  {
    var clauses := BuildWhere(q, user).value;
    if q.isFavorite.None? {
      var s := if Given(q.search) then [NameILike(q.search.value)] else [];
      var t := if Given(q.typeFilter) then [TypesILike(q.typeFilter.value)] else [];
      assert clauses == s + t;
      assert AllHold(clauses, p, favorites) <==> AllHold(s, p, favorites) && AllHold(t, p, favorites) by {
        assert forall k :: 0 <= k < |s| ==> clauses[k] == s[k];
        assert forall k :: 0 <= k < |t| ==> clauses[|s| + k] == t[k];
      }
      assert AllHold(s, p, favorites) <==> (Given(q.search) ==> ILikeSubstring(p.name, q.search.value)) by {
        if Given(q.search) { assert Holds(s[0], p, favorites) <==> ILikeSubstring(p.name, q.search.value); }
      }
      assert AllHold(t, p, favorites) <==> (Given(q.typeFilter) ==> ILikeSubstring(p.types, q.typeFilter.value)) by {
        if Given(q.typeFilter) { assert Holds(t[0], p, favorites) <==> ILikeSubstring(p.types, q.typeFilter.value); }
      }
    } else {
      assert |clauses| == 1;
      assert AllHold(clauses, p, favorites) <==> Holds(clauses[0], p, favorites);
    }
  }

  /** The filtered rows before the skip/take window: the set that `count` measures. */
  function Filtered(pokemons: seq<Pokemon>, favorites: set<Favorite>, q: QueryInput,
                    user: Option<Auth.User>): (rows: seq<Pokemon>)
    requires !FavoriteFilterWithoutCaller(q, user)
    ensures forall p :: multiset(rows)[p] == if Wanted(p, favorites, q, user) then multiset(pokemons)[p] else 0
    ensures forall p :: p in rows <==> p in pokemons && Wanted(p, favorites, q, user)
  {
    var rows := Select(pokemons, favorites, BuildWhere(q, user).value);
    forall p ensures multiset(rows)[p] == if Wanted(p, favorites, q, user) then multiset(pokemons)[p] else 0 {
      BuildWhereMeansWanted(p, favorites, q, user);
    }
    assert forall p :: p in rows <==> p in pokemons && Wanted(p, favorites, q, user) by {
      forall p ensures p in rows <==> p in pokemons && Wanted(p, favorites, q, user) {
        assert p in rows <==> multiset(rows)[p] > 0;
        assert p in pokemons <==> multiset(pokemons)[p] > 0;
      }
    }
    rows
  }

  /** A page of results and the size of the whole filtered set. */
  datatype Page = Page(items: seq<Pokemon>, count: nat)

  /** How many rows a window of `limit` rows starting at `offset` holds out of `total`; a limit of 0 means no limit. */
  function WindowSize(total: nat, offset: nat, limit: nat): nat {
    if offset >= total then 0
    else if limit == 0 || total - offset <= limit then total - offset
    else limit
  }

  /**
   * `skip(offset).take(limit)`: PostgreSQL refuses a negative OFFSET or
   * LIMIT, and a LIMIT of 0 is not emitted at all, so it takes every row.
   */
  function Window(rows: seq<Pokemon>, offset: int, limit: int): (r: Result<seq<Pokemon>, HttpError>)
    ensures r.Err? <==> offset < 0 || limit < 0
    ensures r.Err? ==> r.error == QueryFailed
    ensures r.Ok? ==> && (limit > 0 ==> |r.value| <= limit)
                      && |r.value| == WindowSize(|rows|, offset, limit)
                      && forall k :: 0 <= k < |r.value| ==> r.value[k] == rows[offset + k]
  {
    if offset < 0 || limit < 0 then Err(QueryFailed)
    else if offset >= |rows| then Ok([])
    else if limit == 0 || |rows| - offset <= limit then Ok(rows[offset..])
    else Ok(rows[offset..offset + limit])
  }

  /**
   * `findAll`: the Forbidden check comes before any query runs; then the
   * filtered rows are counted and the window of them is returned.
   */
  function FindAll(pokemons: seq<Pokemon>, favorites: set<Favorite>, q: QueryInput,
                   user: Option<Auth.User>): (r: Result<Page, HttpError>)
    ensures FavoriteFilterWithoutCaller(q, user) ==> r == Err(Forbidden)
    ensures !FavoriteFilterWithoutCaller(q, user) ==> (r.Err? <==> q.offset < 0 || q.limit < 0)
    ensures !FavoriteFilterWithoutCaller(q, user) && r.Err? ==> r.error == QueryFailed
    ensures r.Ok? ==>
      var rows := Filtered(pokemons, favorites, q, user);
      && r.value.count == |rows|
      && (q.limit > 0 ==> |r.value.items| <= q.limit)
      && |r.value.items| == WindowSize(|rows|, q.offset, q.limit)
      && forall k :: 0 <= k < |r.value.items| ==> r.value.items[k] == rows[q.offset + k]
  {
    if FavoriteFilterWithoutCaller(q, user) then Err(Forbidden)
    else
      var rows := Filtered(pokemons, favorites, q, user);
      match Window(rows, q.offset, q.limit)
      case Err(e) => Err(e)
      case Ok(items) => Ok(Page(items, |rows|))
  }

  // ---------------------------------------------------------------------------
  // The favourite relation, updated in place
  // ---------------------------------------------------------------------------

  /** Every link points at a stored pokemon (the join table's foreign key). */
  predicate LinksResolve(pokemons: seq<Pokemon>, favorites: set<Favorite>) {
    forall f | f in favorites :: exists k :: 0 <= k < |pokemons| && pokemons[k].id == f.pokemonId
  }

  class PokemonService {
    var pokemons: seq<Pokemon>
    var favorites: set<Favorite>

    ghost predicate Valid()
      reads this
    {
      UniqueIds(pokemons) && LinksResolve(pokemons, favorites)
    }

    constructor (pokemons: seq<Pokemon>, favorites: set<Favorite>)
      requires UniqueIds(pokemons) && LinksResolve(pokemons, favorites)
      ensures Valid() && this.pokemons == pokemons && this.favorites == favorites
    {
      this.pokemons := pokemons;
      this.favorites := favorites;
    }

    /**
     * Link the caller to the pokemon. An unknown id is NotFound; a link that
     * is already stored violates the join table's primary key, so the insert
     * fails and nothing changes.
     */
    method AddFavorite(id: int, user: Auth.User) returns (r: Result<Pokemon, HttpError>)
      requires Valid()
      modifies this
      ensures Valid() && pokemons == old(pokemons)
      ensures FindById(pokemons, id).Err? ==>
        r == Err(NotFound(PokemonNotFound)) && favorites == old(favorites)
      ensures FindById(pokemons, id).Ok? && Favorite(user.id, id) in old(favorites) ==>
        r == Err(QueryFailed) && favorites == old(favorites)
      ensures FindById(pokemons, id).Ok? && Favorite(user.id, id) !in old(favorites) ==>
        r == FindById(pokemons, id) && favorites == old(favorites) + {Favorite(user.id, id)}
    {
      var found := FindById(pokemons, id);
      if found.Err? {
        return Err(found.error);
      }
      var pokemon := found.value;
      var link := Favorite(user.id, pokemon.id);
      if link in favorites {
        return Err(QueryFailed);
      }
      favorites := favorites + {link};
      r := Ok(pokemon);
    }

    /** Unlink the caller from the pokemon; removing a link that is not there is no error. */
    method RemoveFavorite(id: int, user: Auth.User) returns (r: Result<Pokemon, HttpError>)
      requires Valid()
      modifies this
      ensures Valid() && pokemons == old(pokemons)
      ensures r == FindById(pokemons, id)
      ensures r.Err? ==> favorites == old(favorites)
      ensures r.Ok? ==> favorites == old(favorites) - {Favorite(user.id, id)}
    {
      var found := FindById(pokemons, id);
      if found.Err? {
        return found;
      }
      favorites := favorites - {Favorite(user.id, found.value.id)};
      r := found;
    }
  }

  // ---------------------------------------------------------------------------
  // What the favourite updates mean for the listing
  // ---------------------------------------------------------------------------

  /** After a favourite is added, the caller's favourites listing includes the pokemon, and nobody's unfavourited listing does. */
  lemma AddedFavoriteIsListed(pokemons: seq<Pokemon>, favorites: set<Favorite>, p: Pokemon, user: Auth.User,
                              q: QueryInput, other: Auth.User)
    requires p in pokemons && q.isFavorite.Some?
    ensures var links := favorites + {Favorite(user.id, p.id)};
      && (q.isFavorite == Some(true) ==> p in Filtered(pokemons, links, q, Some(user)))
      && (q.isFavorite == Some(false) ==> p !in Filtered(pokemons, links, q, Some(other)))
  {
    var links := favorites + {Favorite(user.id, p.id)};
    if q.isFavorite == Some(false) {
      assert !Wanted(p, links, q, Some(other)) by {
        assert Favorite(user.id, p.id) in links;
      }
    }
  }

  /**
   * Removing one user's favourite changes no other user's favourites
   * listing, and drops the pokemon from that user's own.
   */
  lemma RemovedFavoriteOnlyAffectsCaller(pokemons: seq<Pokemon>, favorites: set<Favorite>, p: Pokemon,
                                         user: Auth.User, q: QueryInput, other: Auth.User)
    requires q.isFavorite == Some(true) && other.id != user.id
    ensures var links := favorites - {Favorite(user.id, p.id)};
      && p !in Filtered(pokemons, links, q, Some(user))
      && Filtered(pokemons, links, q, Some(other)) == Filtered(pokemons, favorites, q, Some(other))
  {
    var links := favorites - {Favorite(user.id, p.id)};
    var clauses := BuildWhere(q, Some(other)).value;
    assert clauses == [FavoritedBy(other.id)];
    SelectAgrees(pokemons, links, favorites, clauses);
  }

  /** Two link sets that agree on every clause select the same rows. */
  lemma {:induction false} SelectAgrees(pokemons: seq<Pokemon>, links: set<Favorite>, favorites: set<Favorite>,
                                        clauses: seq<Clause>)
    requires forall p :: AllHold(clauses, p, links) <==> AllHold(clauses, p, favorites)
    ensures Select(pokemons, links, clauses) == Select(pokemons, favorites, clauses)
    decreases |pokemons|
  {
    if |pokemons| > 0 {
      SelectAgrees(pokemons[1..], links, favorites, clauses);
    }
  }

  /**
   * Every stored link names a stored pokemon, so the pokemon behind any of a
   * user's favourites can be looked up, and hence unfavourited, without NotFound.
   */
  lemma FavoriteResolves(pokemons: seq<Pokemon>, favorites: set<Favorite>, f: Favorite)
    requires LinksResolve(pokemons, favorites) && f in favorites
    ensures FindById(pokemons, f.pokemonId).Ok?
    ensures FindById(pokemons, f.pokemonId).value.id == f.pokemonId
  {
  }

  /** A favourite filter ignores the search and type parameters altogether. */
  lemma FavoriteFilterDropsSearch(pokemons: seq<Pokemon>, favorites: set<Favorite>, q: QueryInput, user: Auth.User)
    requires q.isFavorite.Some?
    ensures Filtered(pokemons, favorites, q, Some(user))
         == Filtered(pokemons, favorites, q.(search := None, typeFilter := None), Some(user))
  {
  }
}
