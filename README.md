# Event registry, modelled and verified in Dafny

This is a model of an event-registration HTTP service. Its five request
handlers work over two tables. `events` holds an autoincrement id, a name, a
date, a capacity and an `is_cancelled` flag. `registrations` holds an
autoincrement id, an event id, an attendee name and an email, and is unique
on (event id, email).

- Create event checks that `name`, `date` and `capacity` are truthy and that
  the date is in the future, then inserts an uncancelled event.
- List events filters by name, sorts by `name` or `date` and returns one page.
  `page` and `limit` are read with `parseInt(x) || default`.
- Register runs four checks in a fixed order: the event exists, it is not
  cancelled, it is not full, and the email is not already registered for it.
  Only then does it insert.
- Cancel sets the flag for the id. It always replies success.
- Stats counts the registrations for an id.

Files:

- `js_values.dfy` (module `JsValues`): JavaScript truthiness of request
  fields, and `parseInt` as ECMAScript defines it: leading white space,
  sign, `0x` prefix, longest digit run, NaN. Also `parseInt(x) || d`.
- `text.dfy` (module `Text`): substring containment, used for the name match,
  and the lexicographic order used for `ORDER BY name`.
- `store.dfy` (module `Store`): the rows and the tables, the table queries
  each handler runs, and each writing handler as a pure function from the old
  tables to the new tables. Create and register also return their reply.
  Cancel's reply is always success, so it is not modelled as a value. It also holds the tables'
  invariant (`Valid`) and one lemma per handler.
- `history.dfy` (module `History`): any sequence of requests. It proves the
  invariants that hold across operations: the invariant itself, one-way
  cancellation, and no second registration.
- `listing.dfy` (module `Listing`): the list handler. This is the filter, an
  insertion sort by the key, and the `LIMIT`/`OFFSET` window.
- `registry.dfy` (module `Registry`): class `EventRegistry`. Its fields are
  the two tables and the two next-id counters, and its methods are the
  handlers. Create, register and cancel update the fields in place. Each one
  is proved to leave exactly the tables that `Store` defines and to keep
  `Valid`. Create and register also return `Store`'s reply. Cancel's reply
  is always success, so it is not modelled. `LaunchScenario` is a client of the class that runs a
  worked example: one seat, a second registration refused, stats of one.

Inputs the model takes as parameters:

- The current time is the `now` parameter.
- Dates arrive already parsed to integers (milliseconds).
- A path `:id` arrives as an integer.

Two behaviours of the code shape the model:

- Capacity is only checked for truthiness, so a negative capacity is stored
  and such an event is always full. The capacity invariant is therefore
  stated as "count ≤ capacity, or count = 0".
- Register checks nothing about the registration body: an empty attendee
  name is stored as given.

## Model

| member | source | states |
|---|---|---|
| JsValues.ParseIntDecimal | server.js:47-48 | `parseInt` of a decimal numeral gives back its value. This holds with leading white space, and with any trailing text that does not extend the numeral: not a digit, and not `x`/`X` after "0". |
| JsValues.ParseIntWithUnit | server.js:47-48 | `parseInt("  12px")` is 12: leading white space and a unit suffix are ignored. |
| JsValues.ParseIntSkipsWhiteSpace | server.js:47-48 | Leading white space does not change what `parseInt` reads. |
| JsValues.ParseIntNegative | server.js:47-48 | `parseInt("-" + numeral)` is the negated value. |
| JsValues.ParseIntOrCases | server.js:47-48 | `parseInt(x)` with the fallback `d` is `d` when `x` is absent or parses to NaN or 0, and the parsed value otherwise. |
| JsValues.ParseIntOr | server.js:47-48 | `parseInt(x)` with the fallback `d` is never 0 when the default is not 0. So page and limit are never 0. |
| JsValues.ParseIntOrDecimal | server.js:47-48 | `parseInt(numeral)` with the fallback `d` is the numeral's value. The numeral "0" falls back to the default. |
| JsValues.ParseIntOrNoDigits | server.js:47-48 | Text that is empty, or starts with neither a digit, a sign nor white space, falls back to the default. |
| JsValues.TrimStart | server.js:47-48 | What `parseInt` skips is leading white space only. The rest starts with something other than white space. |
| JsValues.DigitPrefix | server.js:47-48 | `parseInt` reads the longest prefix made only of digits of the radix. |
| Text.Contains | server.js:45-53 | The name match holds exactly when the search text occurs at some position of the name. |
| Text.StrLeReflexive | server.js:52 | The order of `ORDER BY name` puts every name at or before itself. |
| Text.StrLeTotal | server.js:52 | The order of `ORDER BY name` relates any two names. |
| Text.StrLeTransitive | server.js:52 | The order of `ORDER BY name` is transitive. |
| Text.StrLeAntisymmetric | server.js:52 | Two names ordered both ways are equal. |
| Store.FindEvent | server.js:63 | The event lookup returns a row holding the id, and the first such row. It returns none exactly when no row holds the id. |
| Store.CountFor | server.js:67 | `COUNT(*)` equals the number of registration rows whose event id is the id. |
| Store.MarkCancelled | server.js:81 | The `UPDATE` sets the flag on every row with the id and leaves every other row as it was. |
| Store.EmptyIsValid | server.js:12-29 | Fresh tables satisfy the invariant. |
| Store.CreateEventErrors | server.js:34-35 | `Missing` comes back exactly when a field is falsy, and a capacity of 0 counts as missing. `PastDate` comes back exactly when the fields are present and the date is at or before `now`. A failure leaves the tables unchanged. |
| Store.CreateEventSuccess | server.js:37-39 | A successful create appends exactly one uncancelled event with the given fields and a fresh id, and returns that id with the inputs. Registrations are unchanged. The new event has no registrations, and looking up its id finds it. |
| Store.NoRegistrationsForUnknown | server.js:86-90 | Registrations only refer to existing events, so stats for an unknown id is 0, never an error. |
| Store.AppendEventPreservesValid | server.js:37-38 | Inserting an event with a name, a non-zero capacity and the next id keeps the invariant. |
| Store.CreateEventPreservesValid | server.js:37-38 | Create keeps the invariant: fresh increasing ids, references to existing events, unique pairs, capacity respected, stored events well formed. |
| Store.RegisterErrors | server.js:63-75 | Register checks in a fixed order and stops at the first failure: `NotFound` exactly when no event has the id, then `Cancelled`, then `Full` when count ≥ capacity, then `Duplicate` when the (event, email) pair exists. It succeeds exactly when all four checks pass. A failure leaves the tables unchanged. |
| Store.RegisterSuccess | server.js:70-72 | A success adds exactly one registration, for that event and email, and leaves events unchanged. The count grows by one and stays within capacity, and the pairs stay distinct. |
| Store.RegisterPreservesValid | server.js:67-72 | Register keeps the invariant, including the capacity bound and pair uniqueness. |
| Store.CancelEffect | server.js:79-83 | Cancel sets the flag of the event with the id and changes nothing else. For an unknown id it changes nothing at all. |
| Store.CancelIdempotent | server.js:81 | Cancelling twice equals cancelling once. |
| Store.CancelPreservesValid | server.js:81 | Cancel keeps the invariant. |
| Store.FindEventExtend | server.js:37-38 | Appending an event does not move any id the lookup already found. |
| History.StepPreservesValid | server.js:32-83 | Every writing request keeps the invariant. |
| History.RunPreservesValid | server.js:32-83 | Any sequence of requests keeps the invariant. |
| History.ReachableIsValid | server.js:12-29 | From fresh tables, every reachable state satisfies the invariant. No event exceeds its capacity, and no (event, email) pair is stored twice. |
| History.StepEvolves | server.js:32-83 | One request only appends events, only raises flags, and only appends registrations. |
| History.EvolvesTransitive | server.js:32-83 | That way of changing composes across requests. |
| History.RunEvolves | server.js:32-83 | Over any sequence of requests, events keep their fields, a flag never goes back to false, and registrations only grow. |
| History.RegisterAfterCancel | server.js:65 | Once an event is cancelled it stays cancelled, and every later registration for it returns `Cancelled`, whatever requests come between. |
| History.CancelThenRegister | server.js:81-82 | After cancelling an existing event, every later registration for it returns `Cancelled`. |
| History.NoSecondRegistration | server.js:27 | A registered (event, email) pair stays registered, and no later registration of that pair succeeds. |
| History.SecondRegistrationRefused | server.js:67-75 | The same email registered twice in a row gets `Full` or `Duplicate` the second time. |
| Listing.Filter | server.js:45-53 | The filtered rows are the rows whose name contains the search text, each as often as in the table. |
| Listing.InsertPermutes | server.js:52 | Inserting a row into the sorted rows adds exactly that row. |
| Listing.InsertSorted | server.js:52 | Inserting a row keeps the rows sorted. |
| Listing.SortBySorted | server.js:46-52 | Sorting by the key gives rows in the key's order that are a permutation of the input. |
| Listing.Window | server.js:49-53 | `LIMIT`/`OFFSET` gives at most `limit` rows, each the row at offset + i. |
| Listing.WindowSorted | server.js:52-53 | A window of sorted rows is sorted. |
| Listing.QueryDefaults | server.js:44-48 | `sort` is `date` exactly for the text "date", otherwise name. `page`/`limit` are the parsed values, or 1 and 5 when absent, unparsable or zero. An absent or empty search matches every name. |
| Listing.PageSpec | server.js:45-53 | A page has at most `limit` rows. Each is a table row that matches the search, cancelled or not. The rows are sorted by the key. They are the window at `(page-1)*limit` of the sorted matching rows, which hold each matching row as often as the table does. |
| Listing.ListEventsSpec | server.js:43-56 | The handler's result has at most `limit` rows, all matching table rows, in the key's order. |
| Listing.PageOfMatch | server.js:49-53 | Page j / limit + 1 is the page whose `OFFSET` is at or before position j and whose window ends after it. |
| Listing.EveryMatchOnItsPage | server.js:49-53 | The match at position j of the sorted matches is on page j / limit + 1, at position j minus that page's offset. So paging drops no match. |
| Registry.EventRegistry.constructor | server.js:12-29 | A new store has two empty tables, ids starting at 1, and satisfies the invariant. |
| Registry.EventRegistry.CreateEvent | server.js:32-40 | The fields change exactly as `Store.CreateEvent` says, and the reply is the one it gives. The invariant is kept. |
| Registry.EventRegistry.Register | server.js:59-76 | The fields change exactly as `Store.Register` says, and the reply is the one it gives. The invariant is kept. |
| Registry.EventRegistry.Cancel | server.js:79-83 | The fields change exactly as `Store.Cancel` says, and the invariant is kept. |
| Registry.EventRegistry.ListEvents | server.js:43-56 | Read-only. Returns `Listing.ListEvents` of the events field. |
| Registry.EventRegistry.Stats | server.js:86-90 | Read-only. Returns the number of registrations for the id. |
| Registry.LaunchScenario | server.js:32-90 | On new tables, an event with one seat is created with id 1. The first registration succeeds, a second one with another email is `Full`, and stats report 1. |

## Left out

- HTTP plumbing (Express routing, CORS, JSON body parsing, `app.listen`) is not modelled.
- The SQLite file handle and SQL execution are not modelled. The tables are values, and each statement is the table operation it performs.
- JavaScript `Date` parsing is not modelled. Dates arrive as integers with `now` as a parameter. An unparsable date gives NaN, which the source accepts as a future date; that case is not covered.
- The source stores the date text as given. `ORDER BY date` sorts that text, and the model sorts the parsed numbers. The two agree when every date is written in one ISO-8601 format with the same explicit UTC offset (for example, all in UTC with `Z`). Dates with different offsets, or local times across a daylight-saving change, can sort differently.
- SQLite `LIKE` semantics are not modelled: `LIKE` ignores ASCII case and treats `%` and `_` in the search text as wildcards. The model uses plain, case-sensitive substring containment.
- `ORDER BY name` is modelled as character-code order, SQLite's default BINARY collation. The order of tied rows is unspecified in SQLite. The model keeps table order for ties, and its lemmas state only sortedness and permutation.
- Listing.ListEvents: requires page and limit to be positive after parsing. Negative values (`parseInt("-1")`) give a negative `LIMIT`/`OFFSET`, which SQLite interprets its own way.
- Listing.ListEvents: does not model SQLite's bound on `LIMIT` and `OFFSET`. Each must convert losslessly to a 64-bit integer, and `(page - 1) * limit` is computed in floating point. A limit such as 1e20, or a page and limit whose offset passes 2^63, makes the query throw and the request fail. The model returns a page for them.
- `parseInt` on numerals too large for a double is exact in the model. JavaScript rounds such values to floating point.
- `parseInt` on query values that Express gives as arrays or objects is not modelled. Each parameter is absent or one string.
- The path `:id` is an integer here. Text that SQLite's affinity conversion does not turn into an integer matches no row. Such an id behaves like an id no event has.
- JSON type variety is not modelled: `name` and `email` are strings, and `capacity` is an integer. A capacity sent as non-numeric text, which SQLite would store as text, is left out.
- Register: a registration body without a name or email breaks a NOT NULL constraint. The source's catch-all reports that as "Duplicate email". The model treats the insert as failing only on the (event, email) uniqueness constraint.
- The capacity race is not modelled: the count check and the insert are not atomic, so two concurrent requests can overfill an event. The model is sequential, so this cannot arise.
- Foreign-key enforcement is not modelled. Register has already checked that the event exists, so the constraint cannot fire in a sequential run, and the model keeps "every registration refers to an event" in the invariant.
- AUTOINCREMENT exhaustion at 2^63 - 1 is not modelled. Ids are unbounded integers.
