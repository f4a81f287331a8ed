# Waitlist registration endpoint

This project models the one piece of server logic in a landing-page repository: the `/api/waitlist` route.

- `POST` parses the JSON body against a schema with a single `email` field. It looks the address up in the `waitlistEntry` table. If the address is present it answers 409. Otherwise it inserts exactly one row and answers 201. Schema failures become 400. Every other failure becomes 500.
- `GET` answers with the number of rows.

The model is sequential: each request runs to completion before the next one starts.

Layout:

- `results.dfy` (`Results`): `Option` and `Result`.
- `json.dfy` (`Json`): the parsed request body, and zod's names for JSON types.
- `schema.dfy` (`Schema`): the waitlist schema, `error.flatten().formErrors`, and the text of a 400 answer.
- `waitlist.dfy` (`Waitlist`): table entries and responses. It also holds the `catch` block as a function, and the lookup.
  - `Post` is the specification function of one POST.
  - `WaitlistStore` is a class holding the table. Its `Register` (POST) is proved against `Post`. Its `Count` (GET) reads the table.
- `properties.dfy` (`WaitlistProperties`): the lemmas.
  - Each status is characterised in both directions.
  - The table is only appended to, and addresses stay unique.
  - No normalisation is done.
  - The count is proved over a series of requests.
  - A worked session is proved against `Post` and against the class.

External pieces are inputs:

- zod's e-mail check is the parameter `isEmail: string -> bool`. The store holds it as a constant.
- `request.json()` failing is the body `Unparseable`.
- A `Backend` value says what the database does during one POST:
  - whether the lookup throws;
  - whether the insert throws, and whether that is a unique-constraint violation;
  - the id and timestamp a new row receives.
- GET takes a flag saying whether the count query throws.

Two behaviours of the route worth noting:

- When an object body has a malformed `email`, the 400 text is `'Invalid input'`, not `'Please enter a valid email address'`. That message belongs to the `email` field, and the route only reports form-level errors (`formErrors[0] || 'Invalid input'`). Only a body that is not an object yields a form-level message (zod's `Expected object, received …`). Because of the `||`, an empty first form-level message also falls back to `'Invalid input'`.
- A unique-constraint violation raised by the insert is answered with 500 and the generic text. It is not mapped to 409.

## Model

| member | source | states |
|---|---|---|
| Schema.ParseWaitlist | app/api/waitlist/route.ts:5-7 | the schema accepts exactly an object whose `email` member is a string zod calls an e-mail, and yields that string verbatim; it reports one issue, which is form-level exactly when the body is not an object and is on path `email` otherwise |
| Schema.FormErrors | app/api/waitlist/route.ts:40 | the form-level messages are empty exactly when no issue has an empty path, and otherwise start with the message of the first issue that has one |
| Schema.ValidationMessage | app/api/waitlist/route.ts:40 | the 400 text is never empty; it is the message of the first form-level issue when that message is non-empty, and `'Invalid input'` when there is no form-level issue or its message is empty |
| Waitlist.Caught | app/api/waitlist/route.ts:38-51 | the catch block answers 400 exactly for a schema error, with its validation message; every other failure is 500 with `'Something went wrong. Please try again.'`; it never answers 409 or 201 |
| Waitlist.Find | app/api/waitlist/route.ts:15-17 | the lookup returns a row of the table with exactly that address, or none when no row has it |
| Waitlist.Post | app/api/waitlist/route.ts:9-53 | one POST either leaves the table as it was or appends exactly one row; it appends one only with a 201 whose payload is that row |
| Waitlist.WaitlistStore.Register | app/api/waitlist/route.ts:9-53 | the stored table and the answer are those of `Post` on the old table; it appends the returned row on 201 and changes nothing otherwise; it keeps addresses and ids unique |
| Waitlist.WaitlistStore.Count | app/api/waitlist/route.ts:55-66 | GET answers 200 with the number of rows exactly when the count query works, and otherwise 500 with `'Failed to fetch waitlist count'`; the table is not changed |
| WaitlistProperties.StatusIsOneOfFour | app/api/waitlist/route.ts:19-51 | POST answers 201, 400, 409 or 500 and nothing else |
| WaitlistProperties.BadInputIs400 | app/api/waitlist/route.ts:39-45 | 400 exactly when the body is JSON that fails the schema; the text is the validation message and the table is unchanged |
| WaitlistProperties.BadInputTouchesNoStorage | app/api/waitlist/route.ts:12-17 | when the schema fails, the answer does not depend on the table or on the database, and the table is unchanged |
| WaitlistProperties.FieldProblemGivesFallback | app/api/waitlist/route.ts:39-44 | an object body with a missing, non-string or malformed `email` gets 400 `'Invalid input'`, because every such issue is field-level |
| WaitlistProperties.NonObjectGivesTypeMessage | app/api/waitlist/route.ts:39-44 | a JSON body that is not an object gets 400 with the form-level text `Expected object, received <type>` |
| WaitlistProperties.DuplicateIs409 | app/api/waitlist/route.ts:15-24 | 409 exactly when the address passes the schema, the lookup works and a row with that exact address exists; the text is `'This email is already on the waitlist!'` and the table is unchanged |
| WaitlistProperties.NewAddressIs201 | app/api/waitlist/route.ts:26-37 | 201 exactly when the address passes, is absent, and lookup and insert both work; the answer is `'Successfully joined the waitlist!'` with the new row, which holds the parsed address verbatim; the table is the old one plus that row |
| WaitlistProperties.FaultIs500 | app/api/waitlist/route.ts:47-51 | 500 exactly when the body is not JSON, the lookup throws, or the insert of an absent address throws; the text is generic and the table is unchanged |
| WaitlistProperties.UniqueViolationAtInsertIs500 | app/api/waitlist/route.ts:27-51 | a unique-constraint violation at insert is answered with 500 and the generic text, not 409, and the table is unchanged |
| WaitlistProperties.PostOnlyAppends | app/api/waitlist/route.ts:15-29 | the old table is a prefix of the new one; the table grows by at most one row, and grows by one exactly on 201 |
| WaitlistProperties.PostKeepsUnique | app/api/waitlist/route.ts:15-29 | if no two rows share an address before a POST, none do after it; the same holds for ids when the new id is fresh |
| WaitlistProperties.DistinctStringsAreDistinctKeys | app/api/waitlist/route.ts:12-28 | two different strings that are both valid and unregistered can be registered one after the other; no normalisation merges them |
| WaitlistProperties.CaseVariantsBothJoin | app/api/waitlist/route.ts:12-28 | `A@b.com` and `a@b.com` both get 201 and become two rows |
| WaitlistProperties.ReplayCount | app/api/waitlist/route.ts:26-37 | after any series of POSTs the row count has grown by exactly the number of 201 answers |
| WaitlistProperties.ReplayKeepsUnique | app/api/waitlist/route.ts:15-29 | over any series of POSTs with fresh ids, no two rows ever share an address or an id |
| WaitlistProperties.ExampleSession | app/api/waitlist/route.ts:9-53 | joining `a@b.com` gives 201 and joining it again gives 409; sending `not-an-email` gives 400 `'Invalid input'`; the table then has one row |
| WaitlistProperties.StoreSession | app/api/waitlist/route.ts:9-66 | the same session on a `WaitlistStore`, proved from the contracts of `Register` and `Count`, gives 201, 409 and 400, and then GET answers 200 with count 1 |

## Left out

- The landing page (`app/page.tsx`) and the layout (`app/layout.tsx`) are presentational. This includes the page's cosmetic `+ 15` on the displayed count and its fallback texts.
- zod's e-mail pattern is a foreign library. It is the abstract parameter `isEmail`, and no particular e-mail grammar is encoded.
- zod's default issue texts (`Required`, `Expected object, received …`, `Expected string, received …`) and type names are those of zod version 3; later versions word them differently. Only the `Expected object` one can reach an answer.
- The lookup compares addresses as exact strings. This assumes the database column compares case-sensitively; under a case-insensitive collation `findUnique` would treat `A@b.com` and `a@b.com` as one key, and `CaseVariantsBothJoin` and `DistinctStringsAreDistinctKeys` would not hold.
- Prisma and the database: how ids and timestamps are made is not modelled. The id and timestamp arrive in `Backend`.
- Waitlist.WaitlistStore.Register: requires that the id handed out is not already in the table. This stands for the database's id generation, not for a check the route makes.
- Concurrency: the race between the lookup and the insert needs parallel requests. The model is sequential. A unique-constraint violation at insert that such a race would cause is still an input (`UniqueViolation`), and it is answered with 500.
- Logging through `console.error`, async/await, `NextResponse` and the HTTP framework are not modelled.
- JSON serialisation of the answer is not modelled. The 201 payload carries the row as a record, and `createdAt` is an opaque timestamp rather than an ISO string.
- JSON numbers carry no value, because the route never looks at one.
