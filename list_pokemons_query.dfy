/**
 * The listing query's validation: the defaults of `offset` and `limit` and
 * the per-property constraints, turned into a function from the raw query
 * parameters to either the query the catalog listing runs or the list of
 * violated constraints.
 */
module ListPokemonsQuery {
  import opened Wrappers
  import Catalog

  const DefaultOffset := 0
  const DefaultLimit := 10
  const MinLimit := 1
  const MaxLimit := 100

  /** A query parameter as the validators see it. */
  datatype Param = Absent | Number(n: int) | Text(s: string) | Flag(b: bool)

  /** The raw listing parameters. `offset` has no type check; it is taken as a number. */
  datatype RawQuery = RawQuery(offset: Option<int>, limit: Param, search: Param, typeFilter: Param, isFavorite: Param)

  /** One failed constraint, named by the property it is on. */
  datatype Violation =
    | NotANumber(property: string)                // @IsNumber
    | BelowMin(property: string, min: int)        // @Min
    | AboveMax(property: string, max: int)        // @Max
    | NotAString(property: string)                // @IsString
    | NotABoolean(property: string)               // @IsBoolean

  /** `@IsNumber @Min(1) @Max(100) @IsOptional`; the range checks also fail on a value that is not a number. */
  function LimitViolations(limit: Param): seq<Violation> {
    match limit
    case Absent => []
    case Number(n) =>
      (if n < MinLimit then [BelowMin("limit", MinLimit)] else [])
      + (if n > MaxLimit then [AboveMax("limit", MaxLimit)] else [])
    case _ => [NotANumber("limit"), BelowMin("limit", MinLimit), AboveMax("limit", MaxLimit)]
  }

  /** `@IsString @IsOptional` */
  function TextViolations(property: string, p: Param): seq<Violation> {
    if p.Absent? || p.Text? then [] else [NotAString(property)]
  }

  /** `@IsBoolean @IsOptional` */
  function FlagViolations(property: string, p: Param): seq<Violation> {
    if p.Absent? || p.Flag? then [] else [NotABoolean(property)]
  }

  function OptionalText(p: Param): Option<string>
    requires p.Absent? || p.Text?
  {
    if p.Text? then Some(p.s) else None
  }

  /** Whether a supplied `limit` is acceptable. */
  predicate LimitAccepted(limit: Param) {
    limit.Absent? || (limit.Number? && MinLimit <= limit.n <= MaxLimit)
  }

  /**
   * Validate the raw parameters and fill in the defaults. Every violated
   * constraint is reported, property by property.
   */
  function Validate(raw: RawQuery): (r: Result<Catalog.QueryInput, seq<Violation>>)
    ensures r.Ok? <==> && LimitAccepted(raw.limit)
                       && (raw.search.Absent? || raw.search.Text?)
                       && (raw.typeFilter.Absent? || raw.typeFilter.Text?)
                       && (raw.isFavorite.Absent? || raw.isFavorite.Flag?)
    ensures r.Ok? ==> && r.value.offset == (if raw.offset.Some? then raw.offset.value else DefaultOffset)
                      && r.value.limit == (if raw.limit.Number? then raw.limit.n else DefaultLimit)
                      && MinLimit <= r.value.limit <= MaxLimit
                      && (r.value.search.Some? <==> raw.search.Text?)
                      && (raw.search.Text? ==> r.value.search.value == raw.search.s)
                      && (r.value.typeFilter.Some? <==> raw.typeFilter.Text?)
                      && (raw.typeFilter.Text? ==> r.value.typeFilter.value == raw.typeFilter.s)
                      && (r.value.isFavorite.Some? <==> raw.isFavorite.Flag?)
                      && (raw.isFavorite.Flag? ==> r.value.isFavorite.value == raw.isFavorite.b)
    ensures r.Err? ==> |r.error| > 0
    ensures !raw.limit.Absent? && !raw.limit.Number? ==> r.Err? && NotANumber("limit") in r.error
    ensures raw.limit.Number? && raw.limit.n < MinLimit ==> r.Err? && BelowMin("limit", MinLimit) in r.error
    ensures raw.limit.Number? && raw.limit.n > MaxLimit ==> r.Err? && AboveMax("limit", MaxLimit) in r.error
    ensures !raw.search.Absent? && !raw.search.Text? ==> r.Err? && NotAString("search") in r.error
    ensures !raw.typeFilter.Absent? && !raw.typeFilter.Text? ==> r.Err? && NotAString("type") in r.error
    ensures !raw.isFavorite.Absent? && !raw.isFavorite.Flag? ==> r.Err? && NotABoolean("isFavorite") in r.error
    ensures r.Err? ==> forall v :: v in r.error ==>
      match v
      case NotANumber(p) => p == "limit" && !raw.limit.Absent? && !raw.limit.Number?
      case BelowMin(p, m) => p == "limit" && m == MinLimit && !LimitAccepted(raw.limit) && !(raw.limit.Number? && raw.limit.n > MaxLimit)
      case AboveMax(p, m) => p == "limit" && m == MaxLimit && !LimitAccepted(raw.limit) && !(raw.limit.Number? && raw.limit.n < MinLimit)
      case NotAString(p) => (p == "search" && !raw.search.Absent? && !raw.search.Text?)
                         || (p == "type" && !raw.typeFilter.Absent? && !raw.typeFilter.Text?)
      case NotABoolean(p) => p == "isFavorite" && !raw.isFavorite.Absent? && !raw.isFavorite.Flag?
  {
    var violations := LimitViolations(raw.limit)
                    + TextViolations("search", raw.search)
                    + TextViolations("type", raw.typeFilter)
                    + FlagViolations("isFavorite", raw.isFavorite);
    if violations != [] then Err(violations)
    else
      Ok(Catalog.QueryInput(
        offset := if raw.offset.Some? then raw.offset.value else DefaultOffset,
        limit := if raw.limit.Number? then raw.limit.n else DefaultLimit,
        search := OptionalText(raw.search),
        typeFilter := OptionalText(raw.typeFilter),
        isFavorite := if raw.isFavorite.Flag? then Some(raw.isFavorite.b) else None))
  }

  /** With no parameters at all the listing starts at row 0 and takes 10 rows, unfiltered. */
  lemma DefaultsApply()
    ensures Validate(RawQuery(None, Absent, Absent, Absent, Absent))
         == Ok(Catalog.QueryInput(0, 10, None, None, None))
  {
  }

  /**
   * A validated query never reaches the database with a negative or missing
   * LIMIT: the page it yields holds at most `limit` rows, never more than 100,
   * and the only remaining failures are Forbidden and a negative offset.
   */
  lemma ValidatedListingIsBounded(pokemons: seq<Catalog.Pokemon>, favorites: set<Catalog.Favorite>,
                                  raw: RawQuery, user: Option<Catalog.Auth.User>)
    requires Validate(raw).Ok?
    ensures var q := Validate(raw).value;
      var r := Catalog.FindAll(pokemons, favorites, q, user);
      && (r.Err? ==> r.error == Forbidden || q.offset < 0)
      && (r.Ok? ==> |r.value.items| <= q.limit <= MaxLimit)
  {
  }
}
