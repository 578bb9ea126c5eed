# Todo CRUD API — a Dafny model of `TodoController`

This project models the core of a small Laravel service that manages todo
items. The core is `App\Http\Controllers\TodoController`, with its five
actions over one `todos` table:

- **index**: list the todos. An optional `status` filter keeps an exact match.
  An optional `search` group keeps a row when `title LIKE '%term%' OR details LIKE '%term%'`.
  An optional `sort_by` column orders the rows; the direction defaults to `asc`.
- **store**: validate, then insert a row under a fresh id. The answer is 201.
- **show**: return the row, or 404 with "Todo not found".
- **update**: `findOrFail` the row, validate, then overwrite only the supplied fields.
- **destroy**: `findOrFail` the row, delete it, and answer "Todo deleted successfully".

The model is split into modules that follow those parts:

- `wrappers.dfy` (`Wrappers`): `Option`.
- `todos.dfy` (`Todos`): the entity `Todo`, the `Status` enum, and the request
  values. `Value` is a decoded JSON value: null, a string, a scalar or a list.
  A `Payload` maps the three fillable fields to the values the request supplies.
- `validation.dfy` (`Validation`): the rule strings of `store` and `update`.
  Each rule token (`required`, `nullable`, `string`, `max:255`, `in:…`) is
  evaluated with the meaning Laravel's validator gives it. `required` fails on
  an absent field, null, a blank string or an empty array. Every other rule
  skips an absent field, and skips null when the field is `nullable`. `max:`
  measures characters or elements. The error bag maps each failing field to
  its failed rules, in rule order. `required` is an implicit rule: once it
  fails on a field, Laravel checks no further rule of that field, so the
  field is reported with `required` alone. Independent field-by-field descriptions
  (`StoreAcceptable`, `UpdateAcceptable`) are proved equivalent to "the bag is empty".
- `ordering.dfy` (`Ordering`): the order `orderBy` asks for. Strings compare by
  code point and NULL comes first. It has the total-preorder lemmas and an
  insertion sort (`SortRows`), proved to return a sorted permutation. The sort
  is only a reference: the listing promises a sorted permutation, not the
  sort's tie order.
- `listing.dfy` (`Listing`): the query composer. `ListTodos` builds the listing
  step by step, as `index` builds its query. It is proved against `IsListing`:
  the listing holds each selected row of the table exactly once and nothing
  else, and is ordered when `sort_by` is given.
- `controller.dfy` (`TodoController`): the `TodoTable` class. It holds the
  table as a `map<int, Todo>` and the auto-increment counter. Its methods
  `Index`, `Store`, `Show`, `Update` and `Destroy` return a `Response` value:
  `Ok(code, body)`, `Err(422, errors)`, `NotFound(message)` or
  `LookupFailure(id)`. The last one is the exception `findOrFail` raises.
  The client methods at the end chain calls: store then show, destroy then
  show, the same update twice, and store then filter by status.

Behaviour of the code that the model makes explicit:

- The `status` rule is `nullable` on create. So `store` accepts a payload
  without a status and writes NULL. The OpenAPI annotations in the same file
  list `status` as required. The model follows the validator, not the annotation.
- The update rule for the title is `nullable|string|max:255`. So
  `update` with `{"title": null}` is accepted and clears the title, although
  `store` requires one (`UpdateMayClearTitle`). For this reason `Todo.title` is an `Option`.
- A NULL column never matches `LIKE`. So an empty search term keeps exactly
  the rows with a non-NULL title or non-NULL details (`EmptySearchKeepsAll`).
  Every stored row has a title unless an update cleared it.

## Model

| member | source | states |
|---|---|---|
| `Todos.ParseStatus` | app/Http/Controllers/TodoController.php:131 | a name is recognised as a status iff it is one of the three choices of the `in:` rule |
| `Todos.StatusName` | app/Http/Controllers/TodoController.php:131 | each status is written as one of the three choices, and that name reads back as the same status |
| `Validation.Rules` | app/Http/Controllers/TodoController.php:128-185 | for the create rules (lines 128-132) and the update rules (lines 181-185): only `required`, `nullable`, `string`, `max:255` and the three-name `in:` occur; `required` occurs exactly on the create title and `nullable` on every other field; `string` on every field but status; `max:255` exactly on the title; `in:` exactly on status; the list starts with `required` or `nullable` |
| `Validation.FailedRules` | app/Http/Controllers/TodoController.php:128-132 | the result holds only failing rules of the list, in list order; it is empty iff no rule fails; it holds every failing rule unless `required` fails, and a failing `required` at the head is reported alone |
| `Validation.Validate` | app/Http/Controllers/TodoController.php:128-136 | a field is in the error bag iff one of its rules fails; its entry holds only failed rules of the field, in rule order; it holds all of them unless `required` fails, in which case it is `[required]` alone |
| `Validation.TitlePasses` | app/Http/Controllers/TodoController.php:129 | on create the title passes iff it is a non-blank string of at most 255 characters; on update iff it is absent, null or a string of at most 255 characters |
| `Validation.DetailsPasses` | app/Http/Controllers/TodoController.php:130 | details pass iff absent, null or a string, in either mode |
| `Validation.StatusPasses` | app/Http/Controllers/TodoController.php:131 | status passes iff absent, null or one of the three names, in either mode |
| `Validation.StoreRulesMeaning` | app/Http/Controllers/TodoController.php:128-136 | the create validator passes exactly on payloads with a good title, nullable string details and a nullable valid status |
| `Validation.UpdateRulesMeaning` | app/Http/Controllers/TodoController.php:181-189 | the update validator passes exactly on payloads whose supplied fields are each null or of the right form |
| `Validation.MissingTitleErrors` | app/Http/Controllers/TodoController.php:129 | on create an absent title is reported with exactly the `required` failure |
| `Validation.NullTitleErrors` | app/Http/Controllers/TodoController.php:129 | on create a null title is reported with exactly the `required` failure; `string` is not checked after it |
| `Validation.BlankTitleErrors` | app/Http/Controllers/TodoController.php:129 | on create a blank string or an empty list as title, of any length, is reported with exactly the `required` failure |
| `Validation.LongTitleErrors` | app/Http/Controllers/TodoController.php:182 | in either mode a non-blank string title over 255 characters is reported with exactly the `max:255` failure |
| `Validation.BadStatusErrors` | app/Http/Controllers/TodoController.php:184 | in either mode a non-null status outside the three names is reported with exactly the `in:` failure |
| `Validation.BadDetailsErrors` | app/Http/Controllers/TodoController.php:183 | in either mode non-null, non-string details are reported with exactly the `string` failure |
| `Validation.AbsentFieldsPass` | app/Http/Controllers/TodoController.php:181-185 | an absent field never fails, except the title on create |
| `Validation.CreateRulesStricter` | app/Http/Controllers/TodoController.php:181-185 | every payload the create rules accept is accepted by the update rules |
| `Ordering.TextLeTotal` | app/Http/Controllers/TodoController.php:90 | any two strings are comparable in the string order |
| `Ordering.TextLeTransitive` | app/Http/Controllers/TodoController.php:90 | the string order is transitive |
| `Ordering.TextLeAntisymmetric` | app/Http/Controllers/TodoController.php:90 | two strings that compare both ways are equal |
| `Ordering.InOrderTotal` | app/Http/Controllers/TodoController.php:87-90 | for every column and direction, any two rows are comparable |
| `Ordering.InOrderTransitive` | app/Http/Controllers/TodoController.php:87-90 | for every column and direction, the row order is transitive |
| `Ordering.Insert` | app/Http/Controllers/TodoController.php:90 | inserting a row adds exactly that row to the multiset of rows |
| `Ordering.InsertOrdered` | app/Http/Controllers/TodoController.php:90 | inserting into an ordered sequence keeps it ordered |
| `Ordering.SortRows` | app/Http/Controllers/TodoController.php:87-91 | the result is a permutation of the input, ordered by the column in the direction |
| `Listing.DirectionOf` | app/Http/Controllers/TodoController.php:89 | the direction is descending iff `sort_direction` is given as `desc`; otherwise it is ascending |
| `Listing.ContainsAt` | app/Http/Controllers/TodoController.php:82-83 | the substring test holds iff the term occurs at some offset of the string |
| `Listing.ContainsEmpty` | app/Http/Controllers/TodoController.php:82 | the empty term occurs in every string |
| `Listing.WhereStatus` | app/Http/Controllers/TodoController.php:75-77 | keeps exactly the rows with the given status, without duplicating any |
| `Listing.WhereMentions` | app/Http/Controllers/TodoController.php:79-85 | keeps exactly the rows whose title or details contains the term, without duplicating any |
| `Listing.AllRows` | app/Http/Controllers/TodoController.php:73 | returns every row of the table once, and only rows of the table |
| `Listing.StatusStep` | app/Http/Controllers/TodoController.php:75-77 | adding the status clause narrows a listing to its rows with that status |
| `Listing.SearchStep` | app/Http/Controllers/TodoController.php:79-85 | adding the search group ANDs it with the clauses already present |
| `Listing.SortStep` | app/Http/Controllers/TodoController.php:87-91 | ordering a listing keeps the same rows and adds the requested order |
| `Listing.ListTodos` | app/Http/Controllers/TodoController.php:71-93 | the result holds each row selected by the status and search clauses exactly once, nothing else, and is ordered when `sort_by` is given |
| `Listing.ListingIsPermutation` | app/Http/Controllers/TodoController.php:87-93 | any two listings of one table and query are permutations of each other |
| `Listing.ListingWithoutParameters` | app/Http/Controllers/TodoController.php:73-93 | with no parameters every row of the table is listed exactly once |
| `Listing.StatusFilterExact` | app/Http/Controllers/TodoController.php:75-77 | with `status` given every listed row has that status, and every row with it that passes the search is listed |
| `Listing.UnknownStatusSelectsNothing` | app/Http/Controllers/TodoController.php:76 | a status outside the three names matches no row |
| `Listing.SearchIsOrWithinAnd` | app/Http/Controllers/TodoController.php:79-85 | with `search` given a row is listed iff it passes the status filter AND (its title OR its non-null details contains the term) |
| `Listing.EmptySearchKeepsAll` | app/Http/Controllers/TodoController.php:82-83 | the empty term matches a row iff its title or details is not NULL |
| `Listing.SearchFindsTestTodo` | tests/Feature/TodoControllerTest.php:33-43 | a todo titled "Test Todo" is selected by `search=Test` |
| `TodoController.Created` | app/Http/Controllers/TodoController.php:138 | the inserted row has the given id; title and details hold the supplied string, or NULL when null, non-string or absent; status holds the named status when one of the three names is supplied, NULL otherwise |
| `TodoController.Patched` | app/Http/Controllers/TodoController.php:191 | the id is kept; each supplied field is overwritten (a string as given, a named status as that status, anything else as NULL); each absent field keeps its value |
| `TodoController.CreatedReadsBack` | app/Http/Controllers/TodoController.php:138 | a row created from an accepted payload has the new id, the supplied title, the supplied details or NULL, and the named status or NULL |
| `TodoController.PatchedReadsBack` | app/Http/Controllers/TodoController.php:191 | an accepted update writes each supplied field as given (null clears it), keeps every absent field, and keeps the id |
| `TodoController.PatchIdempotent` | app/Http/Controllers/TodoController.php:191 | applying the same payload twice gives the row of one application |
| `TodoController.EmptyPatchChangesNothing` | app/Http/Controllers/TodoController.php:181-191 | an empty update payload is accepted and leaves the row unchanged |
| `TodoController.UpdateMayClearTitle` | app/Http/Controllers/TodoController.php:182 | a null title passes the update rules and the update then leaves the row without a title |
| `TodoController.TodoTable.Index` | app/Http/Controllers/TodoController.php:71-96 | answers 200 with a listing of the current table for the query |
| `TodoController.TodoTable.Store` | app/Http/Controllers/TodoController.php:126-141 | on a validation failure answers 422 with the error bag and leaves the table unchanged; otherwise adds exactly one row, under an id not used before, and answers 201 with it |
| `TodoController.TodoTable.Show` | app/Http/Controllers/TodoController.php:225-234 | answers 200 with the stored row, or 404 "Todo not found" for a missing id |
| `TodoController.TodoTable.Update` | app/Http/Controllers/TodoController.php:177-194 | a missing id fails before validation; a validation failure answers 422 and changes nothing; otherwise only that row is patched and returned with 200 |
| `TodoController.TodoTable.Destroy` | app/Http/Controllers/TodoController.php:217-223 | a missing id fails and changes nothing; otherwise exactly that row is removed and the answer is 200 "Todo deleted successfully" |
| `TodoController.StoreThenShow` | app/Http/Controllers/TodoController.php:138-140 | a created todo is shown under its id with the supplied title, details and status |
| `TodoController.DestroyThenShow` | app/Http/Controllers/TodoController.php:217-233 | after destroy of an id, show of that id answers 404 "Todo not found" |
| `TodoController.UpdateTwice` | app/Http/Controllers/TodoController.php:191-193 | the same update twice answers the same and leaves the state of one application |
| `TodoController.StoreThenFilterByStatus` | tests/Feature/TodoControllerTest.php:20-31 | a completed todo just created is listed by `status=completed` |

## Left out

- HTTP routing, `Request` parsing and JSON encoding are not modelled. A request is a typed `Query` or a `Payload`, and a response is a `Response` value.
- The route parameter `$id` is modelled as an integer. Non-numeric ids are not modelled.
- Listing.Like: SQL `LIKE` is modelled as a plain, case-sensitive substring test. The wildcards `%` and `_` inside a search term are not escaped by the controller and act as patterns in the database; the model does not capture this. Case sensitivity depends on the database collation.
- Listing.ListTodos: `sort_by` is modelled only for the columns `id`, `title`, `details` and `status`. The timestamp columns `created_at` and `updated_at` also sort, but are not modelled. An unknown column makes the database raise an error, which is not modelled. The query builder lower-cases `sort_direction`, so any capitalisation of `asc` or `desc` works and any other value throws; the model takes the direction as an already-parsed `Direction`, so neither the case folding nor the exception is modelled.
- Ordering.KeyLe: strings compare by code point, and NULL sorts first in ascending order, as in SQLite and MySQL. Other collations, and databases that sort NULL last, are not modelled.
- Tie order among rows with equal sort keys is chosen by the database and is left unspecified.
- The order of a listing without `sort_by` is also unspecified. `AllRows` happens to scan ids in ascending order, but nothing in the contract relies on it.
- Validation.Accepts: for a blank string, Laravel skips every rule except `required`. The model applies all rules to it. This moves only blank statuses, which Laravel accepts, and blank titles over 255 characters on update.
- The framework's TrimStrings and ConvertEmptyStringsToNull middleware are not part of this model.
- Error messages are modelled as the failed rules. The framework's message text is not modelled.
- The `created_at` and `updated_at` timestamps are not modelled.
- Ids come from an auto-increment counter. The model has no other id-assignment policy.
- The Eloquent model `App\Models\Todo`, its fillable list and the migration are not part of this model. A field absent on create is stored as NULL. Any column default the migration might set is not modelled, and neither is a NOT NULL constraint that might reject a null title on update.
- `findOrFail` on a missing id becomes `LookupFailure(id)`. The framework's rendering of that exception into an HTTP response is not modelled.
- `app/Http/Controllers/Controller.php` is an empty abstract class and holds only documentation annotations, so it is not modelled.
- The OpenAPI annotations are documentation, and the model does not follow them. Their `required={"title","status"}` disagrees with the `nullable` status rule.
- Concurrent requests on the same row depend on the database and are not modelled.
