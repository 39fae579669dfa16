# Pokémon REST service: a verified Dafny model of its core

The service keeps a catalog of Pokémon and a table of users. Users register,
log in for a bearer token, mark Pokémon as favourites and list the catalog.
The listing can be filtered by name, by type and by favourite status, and it
is paged. This project models the core of the service in Dafny:

- `Auth` (`auth_service.dfy`): the credential check, identity resolution from
  a token's user id, login, and registration. Registration writes the user
  table, so it is a method of the `AuthService` class.
- `Catalog` (`pokemon_service.dfy`): the lookups by id and by name, and the
  distinct type labels. It also covers the listing (`FindAll`) with its WHERE
  clauses and its OFFSET/LIMIT window. Adding and removing favourites change
  the favourite join table in place, so they are methods of `PokemonService`.
- `ListPokemonsQuery` (`list_pokemons_query.dfy`): the validation of the
  listing's query parameters and their defaults.
- `RangeTransformer` (`range_transformer.dfy`): reading a PostgreSQL range
  `[lower,upper)` with the pattern `/\[(.*),(.*)\)/u` and `parseFloat`, and
  writing one back.
- `Repository` (`repository.dfy`) and `Postgres` (`postgres.dfy`): the parts of
  TypeORM and PostgreSQL the core relies on. These are `findOne`/`findOneBy`,
  `ILIKE '%x%'` and `string_to_array(s, ',')`.
- `Wrappers` (`wrappers.dfy`): `Option`, `Result` and the HTTP errors the
  services raise.

Each table is a sequence of rows. The read-only operations are functions of a
snapshot of the tables. The operations that write are methods on classes that
hold the tables.

Some external pieces are parameters that the model knows nothing about:

- The bcrypt comparison is `verify(plain, stored)`.
- The JWT signer is `sign(payload)`.

A few behaviours of the code are worth stating outright, since the model
follows them exactly:

- Registering a taken email fails with BadRequest ("User already exists").
- A successful registration returns the stored user and issues no token,
  although the register route declares `EmailLoginResponse` as its response
  type (src/modules/auth/controllers/users.controller.ts:30-32).
- Adding a favourite that already exists fails. The join table's primary key
  makes the insert fail, so the model returns `QueryFailed` and leaves the
  state unchanged.
- A favourite filter (`isFavorite` given) is installed with TypeORM's `where`.
  That call replaces the `andWhere` clauses added before it, so a search or a
  type given together with `isFavorite` is ignored (`FavoriteFilterDropsSearch`).
- `isFavorite=false` lists the Pokémon that nobody has favourited, not the ones
  the caller has not favourited (the left join tests `users.id IS NULL`).
- The distinct types query has no ORDER BY, so its order is not promised. The
  model lists labels in order of first appearance. The controller test expects
  sorted output, which the query does not guarantee.
- `offset` has no validation constraint. A negative offset reaches PostgreSQL,
  which rejects a negative OFFSET (`QueryFailed`).

## Model

| member | source | states |
|---|---|---|
| Repository.FindOneBy | src/modules/pokemon/services/pokemon.service.ts:71 | a lookup returns a stored row that meets the condition, and returns nothing exactly when no row meets it |
| Repository.FindOneByUnique | src/modules/auth/services/auth.service.ts:24 | on a unique column, the lookup returns exactly the row that holds the value |
| Postgres.Contains | src/modules/pokemon/services/pokemon.service.ts:97-98 | the left-to-right substring scan is true exactly when the needle occurs at some position |
| Postgres.ILikeSubstring | src/modules/pokemon/services/pokemon.service.ts:97-103 | `value ILIKE '%pattern%'` holds exactly when the lower-cased pattern occurs somewhere in the lower-cased value; an empty pattern matches every value |
| Postgres.SplitOnComma | src/modules/pokemon/services/pokemon.service.ts:81 | splitting gives at least one part and no part holds a comma; joining the parts with commas gives the string back |
| Postgres.StringToArray | src/modules/pokemon/services/pokemon.service.ts:81 | `string_to_array(s, ',')` is empty exactly for the empty string; otherwise its comma-free parts join back to `s` |
| Postgres.SplitOnCommaUnique | src/modules/pokemon/services/pokemon.service.ts:81 | any comma-free parts that join to `s` are the split of `s`, so splitting is the inverse of joining |
| Auth.ValidateUserByEmailPassword | src/modules/auth/services/auth.service.ts:20-34 | a returned user is stored, has that email and its password verifies; with unique emails, a user is returned exactly when some stored user has the email and a verifying password |
| Auth.ValidateUserById | src/modules/auth/services/auth.service.ts:36-44 | success exactly when some user has the id, and the result is that stored user; otherwise Unauthorized |
| Auth.Login | src/modules/auth/services/auth.service.ts:46-64 | it fails exactly when credential validation fails, and always with Unauthorized; on success the user matches the credentials and the token is the signature over the user's id |
| Auth.LoginFailuresAlike | src/modules/auth/services/auth.service.ts:46-64 | an unknown email and a wrong password give the same error |
| Auth.LoginSucceeds | src/modules/auth/services/auth.service.ts:46-64 | a stored user with a verifying password logs in as that user, with a token over its id |
| Auth.AuthService.Register | src/modules/auth/services/auth.service.ts:66-77 | a taken email gives BadRequest("User already exists") and the table is unchanged; otherwise the new row with the next id is appended and returned; unique emails and ids are preserved |
| Auth.RegisteredUserResolves | src/modules/auth/services/auth.service.ts:75-76 | after an append with a fresh id, the new user's id resolves to the new user and every earlier user still resolves to itself |
| Auth.RegisteredUserCanLogIn | src/modules/auth/services/auth.service.ts:66-77 | a user registered under a fresh email can then log in with a password that verifies |
| Catalog.FindById | src/modules/pokemon/services/pokemon.service.ts:70-77 | success exactly when some pokemon has the id, and the result is that stored pokemon; otherwise NotFound("Pokemon not found") |
| Catalog.FindByName | src/modules/pokemon/services/pokemon.service.ts:60-68 | success exactly when some pokemon has the name, and the result is that stored pokemon; otherwise NotFound("Pokemon not found") |
| Catalog.FindByIdExact | src/modules/pokemon/services/pokemon.service.ts:71 | with unique ids, a stored pokemon is exactly what its id finds |
| Catalog.FindByNameExact | src/modules/pokemon/services/pokemon.service.ts:61 | with unique names, a stored pokemon is exactly what its name finds |
| Catalog.TypeLabels | src/modules/pokemon/services/pokemon.service.ts:81-82 | a label is listed exactly when it is a component of some row's `types` |
| Catalog.Distinct | src/modules/pokemon/services/pokemon.service.ts:81 | DISTINCT keeps every value, adds none, and lists each value once |
| Catalog.FindAllTypes | src/modules/pokemon/services/pokemon.service.ts:79-86 | the labels have no duplicates, and a label is listed exactly when some row's comma-separated `types` holds it |
| Catalog.BuildWhere | src/modules/pokemon/services/pokemon.service.ts:96-122 | the query is refused with Forbidden exactly when a favourite filter is asked for without a caller |
| Catalog.Holds | src/modules/pokemon/services/pokemon.service.ts:96-120 | a name or type clause holds exactly when its pattern occurs case-insensitively in the name or the `types` column; "favourited by the caller" exactly when a link joins the caller to the pokemon; "favourited by nobody" exactly when no link names the pokemon |
| Catalog.Select | src/modules/pokemon/services/pokemon.service.ts:124-127 | the selected rows are the stored rows that meet every clause, each as often as it is stored |
| Catalog.BuildWhereMeansWanted | src/modules/pokemon/services/pokemon.service.ts:96-122 | a row meets the built clauses exactly when it meets the reference condition stated on the query: favourited by the caller, favourited by nobody, or matching both the non-empty search and type case-insensitively |
| Catalog.Filtered | src/modules/pokemon/services/pokemon.service.ts:94-122 | each pokemon occurs in the filtered rows as often as it is stored when it meets the reference condition, and not at all otherwise, so `count` is fixed by the contract; in particular it is in the rows exactly when it is stored and meets the condition |
| Catalog.Window | src/modules/pokemon/services/pokemon.service.ts:124-127 | a negative offset or limit fails the query; otherwise the result is the rows from `offset` on, at most `limit` of them, where a limit of 0 takes all |
| Catalog.FindAll | src/modules/pokemon/services/pokemon.service.ts:88-130 | Forbidden comes first; otherwise the listing fails exactly for a negative offset or limit; on success `count` is the size of the filtered set and the items are its window, in order |
| Catalog.PokemonService.AddFavorite | src/modules/pokemon/services/pokemon.service.ts:22-40 | an unknown id gives NotFound and an existing link gives QueryFailed, both with no change; otherwise exactly the caller's link is added and the pokemon returned; the catalog never changes |
| Catalog.PokemonService.RemoveFavorite | src/modules/pokemon/services/pokemon.service.ts:42-58 | the result is the lookup by id; on success exactly the caller's link is removed, and a missing link is no error |
| Catalog.AddedFavoriteIsListed | src/modules/pokemon/services/pokemon.service.ts:106-121 | after a favourite is added, the pokemon is in the caller's favourites listing and in nobody's not-favourited listing |
| Catalog.RemovedFavoriteOnlyAffectsCaller | src/modules/pokemon/services/pokemon.service.ts:111-115 | after the caller removes a favourite, the pokemon leaves the caller's favourites listing and every other user's favourites listing is unchanged |
| Catalog.SelectAgrees | src/modules/pokemon/services/pokemon.service.ts:124-127 | two link tables on which every row meets the clauses alike select the same rows |
| Catalog.FavoriteResolves | src/modules/pokemon/services/pokemon.service.ts:42-58 | while every link names a stored pokemon (the service's invariant), the pokemon behind any link is found by id, so unfavouriting it never fails with NotFound |
| Catalog.FavoriteFilterDropsSearch | src/modules/pokemon/services/pokemon.service.ts:111-121 | with a favourite filter, the search and type parameters do not change the listing |
| ListPokemonsQuery.Validate | src/modules/pokemon/dto/list-pokemons-query.dto.ts:18-47 | validation succeeds exactly when limit is absent or a number in 1..100, search and type are absent or strings, and isFavorite is absent or a boolean; then offset defaults to 0, limit to 10, and the rest pass through; every reported violation names a property whose constraint fails, and every failed constraint (limit not a number, below 1, above 100; search or type not a string; isFavorite not a boolean) is reported |
| ListPokemonsQuery.DefaultsApply | src/modules/pokemon/dto/list-pokemons-query.dto.ts:19-31 | an empty query becomes offset 0, limit 10, no filters |
| ListPokemonsQuery.ValidatedListingIsBounded | src/modules/pokemon/dto/list-pokemons-query.dto.ts:26-31 | a validated query returns at most `limit` ≤ 100 items and can fail only with Forbidden or a negative offset |
| RangeTransformer.NumberToString | src/utils/transformers/range.transformer.ts:19 | `String(x)` never writes an empty bound; what it writes is read back by `parseFloat` (ParseFloatOfNumberToString) and holds no delimiter (NumberToStringIsPlain) |
| RangeTransformer.NatToString | src/utils/transformers/range.transformer.ts:19 | the decimal notation of a natural number is a non-empty string of digits with no leading zero, as JavaScript's `String(n)` writes it |
| RangeTransformer.NatToStringRoundTrip | src/utils/transformers/range.transformer.ts:19 | the decimal digits written for a natural number read back as that number |
| RangeTransformer.ParseFloatOfNumberToString | src/utils/transformers/range.transformer.ts:13-14 | `parseFloat(String(x)) == x` for every modelled number |
| RangeTransformer.ParseFloatOfInt | src/utils/transformers/range.transformer.ts:13-14 | `parseFloat(String(n)) == n` for every integer, negative or not |
| RangeTransformer.ParseFloatOfDigits | src/utils/transformers/range.transformer.ts:13-14 | `parseFloat` reads any non-empty string of decimal digits as its decimal value |
| RangeTransformer.ParseFloatOfBlank | src/utils/transformers/range.transformer.ts:13-14 | `parseFloat` of a string of white space only (the empty string included) is NaN |
| RangeTransformer.ParseFloatOfNegative | src/utils/transformers/range.transformer.ts:13-14 | `parseFloat` reads "-" followed by the digits of `n` as `-n` |
| RangeTransformer.ParseFloatOfNatural | src/utils/transformers/range.transformer.ts:13-14 | `parseFloat` reads the digits of `n` as `n` |
| RangeTransformer.ParseFloatOfSpecial | src/utils/transformers/range.transformer.ts:13-14 | `parseFloat` reads "NaN", "Infinity" and "-Infinity" back as themselves |
| RangeTransformer.MatchAt | src/utils/transformers/range.transformer.ts:5 | a match found at a position is a real match there with the furthest comma and parenthesis; no result means no match starts there |
| RangeTransformer.Exec | src/utils/transformers/range.transformer.ts:5-6 | there is no result exactly when no position starts a match; otherwise the match is the leftmost one and the greedy groups reach the furthest comma and parenthesis |
| RangeTransformer.From | src/utils/transformers/range.transformer.ts:4-16 | no match or an empty captured bound gives "Invalid range format"; otherwise the range of the two bounds read by `parseFloat` |
| RangeTransformer.To | src/utils/transformers/range.transformer.ts:18-20 | the written value is at least five characters long, starts with `[` and ends with `)`; where the bounds sit is stated by ToCaptures |
| RangeTransformer.ToCaptures | src/utils/transformers/range.transformer.ts:5-6 | on a value written by `to`, the pattern matches from the first bracket to the last parenthesis, at the comma right after the lower bound, and its two groups are exactly the written lower and upper bounds |
| RangeTransformer.BracketedFound | src/utils/transformers/range.transformer.ts:5-6 | for `[lower,upper)` with no line terminator in either bound and no comma in the upper one, the match spans the whole value and the groups capture `lower` and `upper` |
| RangeTransformer.NumberToStringIsPlain | src/utils/transformers/range.transformer.ts:19 | a written bound holds no comma, no parenthesis and no line terminator |
| RangeTransformer.ExecFinds | src/utils/transformers/range.transformer.ts:5-6 | a match with no bracket before it, no comma between its comma and parenthesis and no parenthesis after it is the one found |
| RangeTransformer.FromEmbedded | src/utils/transformers/range.transformer.ts:4-16 | text around one bracketed range is ignored; the lower bound runs to the last comma; empty bounds are refused |
| RangeTransformer.FromTo | src/utils/transformers/range.transformer.ts:4-20 | every range written by `to` is read back by `from` unchanged |
| RangeTransformer.FromRejectsNoMatch | src/utils/transformers/range.transformer.ts:8-10 | a value in which no position starts a match is refused |
| RangeTransformer.FromRejectsEmptyBounds | src/utils/transformers/range.transformer.ts:8-10 | "[,5)" and "[1,)" are refused although the pattern matches them |
| RangeTransformer.FromIsGreedy | src/utils/transformers/range.transformer.ts:4-16 | for digit strings a, b, c (a and c non-empty), "[a,b,c)" reads as the range a to c: the first group greedily captures "a,b", and `parseFloat` reads only its leading a |
| RangeTransformer.ParseFloatStopsAtComma | src/utils/transformers/range.transformer.ts:13 | for any non-empty digits d and any text t, `parseFloat(d + "," + t)` is the value of d: a comma ends the number |

## Left out

- Networking, HTTP routing, controllers, guards and the Swagger metadata are out. The JWT strategy's `validate` only delegates to `validateUserById`.
- `findEvolutionRequirementsByPokemonId` is outside the modelled core. Its `try` cannot catch the rejected promise of `findOneOrFail`.
- bcrypt and JWT are out. Hashing and signing are the parameters `verify` and `sign`, and the model assumes nothing about them.
- Auth.AuthService.Register: the row stores the password the input carries. Any hashing the user entity does on save is not part of this model.
- Concurrency is out. Two concurrent registrations or favourite inserts are not modelled, and each operation runs against one snapshot.
- Catalog.PokemonService.AddFavorite and Catalog.PokemonService.RemoveFavorite: the caller is always present (both declare `user?: User`). With no user, the query builder's behaviour is not modelled. The routes that call it require a token.
- Catalog.FindAll and Postgres.ILikeSubstring: the model matches the search and type text literally. PostgreSQL treats `%` and `_` in it as wildcards and `\` as an escape character (a trailing `\` makes the query fail); this is not modelled, and the text is taken to hold none of them.
- Catalog.FindAll: case folding covers ASCII letters only.
- Catalog.FindAll: the order of rows without an ORDER BY is taken to be catalog order.
- ListPokemonsQuery.Validate: class-transformer's conversion of query strings to numbers and booleans is not modelled. Parameters arrive already typed.
- ListPokemonsQuery.Validate and ListPokemonsQuery.ValidatedListingIsBounded: `limit` is an integer. `@IsNumber` with `@Min(1)`/`@Max(100)` also accepts a fractional limit such as 2.5, which the model cannot express, so what PostgreSQL does with a fractional LIMIT is not modelled.
- ListPokemonsQuery.Validate: `offset` is any integer. Fractional or non-numeric offsets are not modelled.
- RangeTransformer.ParseFloatOfNumberToString: numbers are the integers plus NaN and the two infinities. Fractions, exponents, `-0` and the 53-bit precision limit of JavaScript numbers are not modelled.
- RangeTransformer.ParseFloat: has no contract of its own; its behaviour is stated by the ParseFloatOf… lemmas and ParseFloatStopsAtComma.
- RangeTransformer.From: the model's ParseFloat reads optional leading white space, an optional sign, then digits or "Infinity", and stops at a decimal point or an exponent. A bound such as "[1.5,2.5)" therefore reads as 1 to 2, where JavaScript reads 1.5 to 2.5. Only integer bounds are modelled.
