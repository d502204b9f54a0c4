# Contact book — a Dafny model

This project models the core of a small contact-book web service (`main.py`).
The service stores `Contact` records and offers these operations:

- create, list a page, get by id, update and delete a contact;
- a case-insensitive substring search over name, surname and email;
- a lookup of contacts whose birthday falls within the next seven days.

Each HTTP handler is a thin layer over one database query. The model states
what those queries mean on an in-memory table: a sequence of records kept in
insertion order, plus the next identifier to assign.

- `dates.dfy`, module `Dates`. A calendar date is a day ordinal (chronological
  order is the order of ordinals). `AddDays` adds to the ordinal. `Between` is
  SQL `BETWEEN`, inclusive at both ends.
- `text.dfy`, module `Text`. It holds ASCII lower-casing and a left-to-right
  substring scan (`Contains`), proved equal to "some position holds the
  pattern". `ILike` is `value ILIKE '%pattern%'`.
- `sequences.dfy`, module `Sequences`. `Filter` is the order-preserving
  selection a `WHERE` scan performs. Two properties characterise it: it is a
  subsequence of the table, and it holds every selected element exactly as
  often as the table does. `FilterUnique` proves that these two properties
  determine the result.
- `contacts.dfy`, module `Contacts`:
  - the `ContactBase` and `Contact` records and the `Result` outcome. `Ok`,
    `NotFound` (HTTP 404) and `Invalid` (HTTP 422) stand in for the HTTP
    responses.
  - the read-only queries `Page`, `FindById`, `Search` and
    `UpcomingBirthdays`. These are functions over the stored sequence.
  - the class `ContactStore`. Its methods `Create`, `Update` and `Delete`
    change the table in place (`modifies this`). Each states the new table in
    terms of the old one. Each also states what every later `FindById`
    returns.

Two behaviours of `main.py` are easy to misread, and the model keeps them as written:

- A present search query shorter than three characters is rejected as
  `Invalid` by the parameter validation (`Query(None, min_length=3)`). It does
  not return an empty list. Only an absent query gives `Ok([])`.
- Birthdays are compared as full dates, year included. No year is adjusted and
  nothing wraps around at month or year boundaries.
  `PastBirthdayNotUpcoming` shows the consequence: a birthday stored as a date
  before today is never returned.

"Today" is a parameter of `UpcomingBirthdays`, not a clock read.

## Model

| member | source | states |
|---|---|---|
| `Contacts.WithId` | main.py:33 | The stored record carries the given identifier and exactly the submitted non-identifier fields. |
| `Contacts.IndexOf` | main.py:45 | `filter(Contact.id == id).first()` gives the first position whose record has identifier `id`, with no earlier position holding it. It gives None exactly when no record has that identifier. |
| `Contacts.IndexOfFirst` | main.py:45 | The first position holding `id` is the one the lookup finds. |
| `Contacts.IndexOfUnique` | main.py:45 | When identifiers are unique, any position holding `id` is the one the lookup finds. |
| `Contacts.FindById` | main.py:43-48 | The result is never `Invalid`. It is `Ok` exactly when some record has the identifier, and the record returned is stored and carries that identifier. When identifiers are unique, it is the only such record. Otherwise the result is `NotFound`. |
| `Contacts.Page` | main.py:39-41 | `skip` defaults to 0 and `limit` to 10. OFFSET/LIMIT returns at most `limit` records. It returns none when `skip` is at or past the end. Otherwise it returns `min(limit, count - skip)` records, the k-th being the stored record at position `skip + k`. |
| `Contacts.DefaultPage` | main.py:40-41 | A request without paging parameters returns the first ten records in stored order, or the whole table when it holds fewer. |
| `Contacts.PageConcat` | main.py:41 | Pages of sizes `a` then `b` from `skip` concatenate to the page of size `a + b` from `skip`. |
| `Contacts.PageAll` | main.py:41 | A page from 0 whose limit is at least the table size is the whole table in stored order. |
| `Contacts.Matches` | main.py:74-77 | A record matches exactly when the lower-cased query occurs somewhere in the lower-cased name, surname or email. A query longer than all three columns never matches. |
| `Contacts.Search` | main.py:70-78 | An absent query gives `Ok([])`. A query shorter than 3 characters is `Invalid`. Any other query gives an order-preserving selection of the table that holds exactly the records whose name, surname or email contains the query, ignoring case. |
| `Contacts.SearchExactly` | main.py:74-78 | A valid search result is unique: it is any order-preserving subsequence of the table that holds each matching record as often as the table does and nothing else. |
| `Contacts.SearchIgnoresCase` | main.py:75-77 | The result for a query equals the result for the query lower-cased (ILIKE). |
| `Contacts.SearchAnnFindsAnna` | main.py:70-78 | The query "ann" finds a contact named "Anna". The query "an" is rejected as too short. |
| `Dates.Date.AddDays` | main.py:84 | Adding a non-negative number of days never moves a date earlier, adding a negative number always does, and adding zero days leaves the date unchanged. |
| `Dates.Between` | main.py:85 | SQL `BETWEEN` is inclusive: both ends of a non-empty range are inside it. A date before the start or after the end is outside it, and a range whose start is after its end contains nothing. |
| `Contacts.InWindow` | main.py:83-85 | Today and today + 7 days are both inside the window, today + 8 days is not, and a date before today is not. Full dates are compared. |
| `Contacts.UpcomingBirthdays` | main.py:80-85 | The result is an order-preserving selection of the table. It holds exactly the records whose birthday lies between today and today + 7 days, both ends inclusive, comparing full dates. |
| `Contacts.UpcomingExactly` | main.py:85 | The birthday result is unique: it is the order-preserving subsequence holding each in-window record as often as the table does and nothing else. |
| `Contacts.PastBirthdayNotUpcoming` | main.py:83-85 | A birthday dated before today is never returned, because the year takes part in the comparison. |
| `Contacts.FindAfterAppend` | main.py:31-37 | After a record with a fresh identifier is appended, looking up that identifier yields the record. Every other lookup is unchanged. |
| `Contacts.FindAfterReplace` | main.py:50-59 | When identifiers are unique, replacing a record by one with the same identifier makes that lookup yield the new record. Every other lookup is unchanged. |
| `Contacts.FindAfterRemove` | main.py:61-68 | When identifiers are unique, removing a record makes its identifier `NotFound`. Every other lookup is unchanged. |
| `Contacts.RemoveKeepsOthers` | main.py:61-68 | After a removal, every remaining record was already stored and identifiers stay unique. |
| `Contacts.ContactStore.constructor` | main.py:9 | Models a freshly created, empty table, not `create_all` on an existing database. The first identifier will be 1, and the invariant holds: identifiers are positive, unique and below the next one to assign. |
| `Contacts.ContactStore.Create` | main.py:31-37 | Appends exactly one record. That record holds the submitted fields and a new identifier that differs from every existing one. Earlier records are unchanged, the invariant is kept, the new record is findable and all other lookups are unchanged. |
| `Contacts.ContactStore.Update` | main.py:50-59 | On an absent identifier: `NotFound`, table unchanged. On a present one: all six submitted fields replace the old ones in place, keeping the identifier and the position. The result is the updated record, no other record or lookup changes, and the invariant is kept. |
| `Contacts.ContactStore.Delete` | main.py:61-68 | On an absent identifier: `NotFound`, table unchanged. On a present one: removes exactly that record and returns its prior state. The rest keep their relative order, a following lookup of the identifier is `NotFound`, and other lookups are unchanged. |
| `Text.Lower` | main.py:75-77 | Lower-casing keeps the length, maps each character through ASCII lower-casing and leaves no capital letter. |
| `Text.LowerIdempotent` | main.py:75-77 | Lower-casing twice equals lower-casing once. |
| `Text.Contains` | main.py:75-77 | The `'%q%'` scan never matches a pattern longer than the text. It always matches the empty pattern. |
| `Text.ContainsIff` | main.py:75 | The left-to-right scan behind `'%q%'` succeeds exactly when the pattern occurs at some position of the text. |
| `Text.ILike` | main.py:75-77 | `value ILIKE '%q%'` holds exactly when the lower-cased query occurs somewhere in the lower-cased value. It never holds for a query longer than the value. |
| `Text.ILikeIgnoresQueryCase` | main.py:75-77 | ILIKE gives the same answer for a query and its lower-cased form. |
| `Text.ILikeIgnoresValueCase` | main.py:75-77 | ILIKE gives the same answer for a column value and its lower-cased form. |
| `Sequences.Filter` | main.py:74-78 | A WHERE scan returns a subsequence of the table. Each element appears exactly as often as in the table if it satisfies the condition, and not at all otherwise. |
| `Sequences.FilterUnique` | main.py:74-78 | Those two properties determine the scan's result uniquely. |

## Left out

- HTTP routing, decorators, `response_model` serialisation and the `HTTPException` mechanics. Outcomes are the `Result` datatype.
- The per-request database session (`get_db`), `commit`/`refresh`, and schema creation at start-up. These are storage plumbing. The model starts from a freshly created, empty table; a database that already holds rows when the service starts is not modelled. The `database` module is not part of this model, so storage faults (HTTP 500) are not modelled.
- Pydantic parsing and coercion of the request body. Inputs are already-typed `ContactBase` values. Of the parameter validation, only the three-character minimum on the search query is kept.
- The clock read `datetime.now()`. "Today" is a parameter.
- Gregorian calendar arithmetic. A date is a day ordinal.
- Python's date range (years 1 to 9999), and the overflow error `today + 7 days` raises in the last days of year 9999.
- `ILIKE` wildcards. A `%` or `_` typed inside the query is not escaped by the source; the model treats it as a literal character.
- Locale and Unicode case folding. Only ASCII letters are lower-cased.
- Contacts.Page: takes `skip` and `limit` as natural numbers. The source passes negative values to the database unchecked, and what happens then depends on the engine.
- Table order. The queries in `main.py` have no `ORDER BY`, so SQL guarantees no order; the model keeps insertion order.
- Identifier allocation. The engine's policy is not shown. The model uses a counter that starts at 1 and never reuses an identifier, so deleted identifiers are never assigned again.
- The runtime defect that the pydantic class `Contact` is used as if it were an ORM entity. The model states the table semantics the handlers evidently intend.
- Concurrency between requests. Each operation is modelled as atomic and sequential.
