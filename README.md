# Users CRUD service: query options and user lifecycle

A Dafny model of the two pieces of logic in a NestJS service for a "users"
resource kept in a MongoDB collection:

- the **query-options translator** `ListOptions`, which turns the list
  endpoint's query strings `p` (page), `l` (limit), `o` (order) and `f`
  (filter) into an offset, a limit (default 10, at most 100), a sort string
  (commas become spaces) and a list of `field:value` equality filters that
  `applyFilters` adds to a query one by one;
- the **user lifecycle service** `UsersService`, with `create`, `getList`,
  `getOne`, `update` and `delete` over one collection, hashing passwords with
  an injected strategy.

Modules, one per component:

- `common.dfy` — `Option` (JavaScript `undefined`/`null` made explicit) and
  `Result`.
- `strings.dfy` — JavaScript `split` with a one-character separator and
  `join`, with their round trips in both directions and the fact that
  `s.split(c).join(d)` replaces every `c` by `d`.
- `store.dfy` — the collection as a table `map<Id, Record>` with a record
  being `map<string, string>`; the query value that a chain of `find`,
  `skip`, `limit`, `sort`, `select` and `where` calls builds; what running it
  returns; and a loaded document that records which paths were assigned
  until `save()` writes those paths back.
- `list_options.dfy` — `ListOptions` as a datatype over the raw query
  strings, its getters as functions, and `ApplyFilters` as a method with
  the source's loop.
- `users_service.dfy` — the class `UsersService` with the table, the next id
  to assign and the injected `encrypt` as its state. It also holds the
  functions that describe what `update`'s loop does, and four client methods,
  `CreateScenario`, `UpdateScenario`, `KeepPasswordScenario` and
  `MissingScenario`, that restate the service tests' scenarios as contracts
  the verifier proves.

Modelling choices:

- `p` and `l` are optional integers. For `p`, `None` stands for a missing,
  empty or non-numeric string, all of which `+p || null` turns into no page.
  For `l`, `None` stands for a missing or empty string. A numeric string
  `"0"` is truthy, so `l = Some(0)` gives limit 0. The code caps the limit
  only from above: `MAX_LIMIT` bounds the limit, and nothing raises it to at
  least 1.
- `o` and `f` are optional strings. A missing and an empty string both count
  as falsy.
- `f.split(',').map(i => i.split(':'))` splits each segment at every colon.
  `applyFilters` uses the first part as the field and the second part as the
  value. So `time:10:30` constrains `time` to `10`. A segment without a
  colon gives the value `undefined`. The model follows the code here: it
  splits at every colon, not only at the first.
- `where({[field]: value})` merges into the query's conditions, so a later
  filter on a field replaces an earlier one on that field.
- The store returns matches in ascending id order. An equality with
  `undefined` (sent as null) matches records that lack the field. A limit of
  0 means no limit, and a negative limit keeps as many records as its
  magnitude. A negative skip is an error (`NegativeSkip`); for example
  `p=-1` gives a negative offset.
- The schema of `src/users/schemas/user.schema.ts` is strict: of the body's
  properties, only `firstName`, `lastName`, `email` and `passwordHash` are
  stored in the model. So no record ever holds the plaintext `password`;
  `UsersService.Valid` states this. The document's own `_id` and `__v` paths
  and its method names are also reachable from the body; the model leaves
  them out (see "Left out").
- `update` loads the record through `getOne`, so the loaded document lacks
  `passwordHash`. Saving writes back only the assigned paths. So, for a body
  that does not name `passwordHash`, the stored hash survives an update
  without a password, and the returned document carries a hash only when a
  password replaced it (`SaveAfterUpdate`, `UpdatePasswordHash`).
- The validation pipe of `src/main.ts` transforms the body but does not strip
  unknown properties, so a body may name `passwordHash` itself. `update`
  copies it like any other field: the caller then sets the stored hash
  directly, unless a non-empty password follows it (`UpdateCopiesField`,
  `UpdateAcceptsCallerHash`); a non-empty password that comes after it wins
  (`UpdatePasswordOverridesHash`).
- A request body is a sequence of (property, value) pairs in the order
  JavaScript's `for...in` visits them; `None` is an `undefined` value.
- `encrypt` is a deterministic function given to the constructor, like the
  tests' `PasswordStrategyMock` (modelled as `MockEncrypt`).
- Ids are natural numbers assigned by the store from a counter.

## Model

| member | source | states |
|---|---|---|
| `Strings.Split` | src/users/helpers/list-options.ts:27 | `split` gives one more part than there are separators, and no part contains the separator |
| `Strings.Join` | src/users/helpers/list-options.ts:27 | a join is as long as its parts plus one separator between each pair of neighbours, and starts with its first part |
| `Strings.JoinSplitReplaces` | src/users/helpers/list-options.ts:27 | `s.split(c).join(d)` is `s` with every `c` replaced by `d` |
| `Strings.JoinSplit` | src/users/helpers/list-options.ts:35 | joining the parts of a split with the separator gives the string back |
| `Strings.SplitJoin` | src/users/helpers/list-options.ts:35 | splitting a join of separator-free parts gives the parts back |
| `Strings.SplitWithoutSeparator` | src/users/helpers/list-options.ts:35 | a string without the separator splits into itself alone |
| `Strings.SplitAvoids` | src/users/helpers/list-options.ts:35 | a character the string lacks is in none of its split parts |
| `Strings.SplitAfterPart` | src/users/helpers/list-options.ts:35 | splitting `p sep t` with `p` separator-free gives `p` followed by the parts of `t` |
| `QueryOptions.ListOptions.Page` | src/users/helpers/list-options.ts:11-13 | the page is absent exactly when `p` is absent or 0, and is otherwise `p` |
| `QueryOptions.ListOptions.Limit` | src/users/helpers/list-options.ts:15-17 | the limit never exceeds 100; it is 10 without `l`; with `l` it is `l` or 100, and never above `l`, so 0 and negatives are not raised |
| `QueryOptions.ListOptions.Offset` | src/users/helpers/list-options.ts:19-21 | the offset is 0 without a page; with a page, offset plus limit is page times limit; it is non-negative for a positive page and a non-negative limit |
| `QueryOptions.ListOptions.Order` | src/users/helpers/list-options.ts:23-28 | the order is absent exactly when `o` is missing or empty; otherwise it is `o` with every comma a space, of the same length and without commas |
| `QueryOptions.ListOptions.Filter` | src/users/helpers/list-options.ts:30-36 | no entries when `f` is missing or empty; otherwise one entry per comma-separated segment, each entry non-empty, and an entry has one part exactly when its segment has no colon |
| `QueryOptions.ListOptions.ApplyFilters` | src/users/helpers/list-options.ts:42-48 | the result is the query with the filter's conditions merged into its own, one `where` per entry in list order; skip, limit, sort and selection are unchanged |
| `QueryOptions.FilterConditions` | src/users/helpers/list-options.ts:43-45 | every constrained field comes from some entry whose second part (or `undefined`) is the field's value |
| `QueryOptions.FilterFreeOf` | src/users/helpers/list-options.ts:30-36 | no part of any filter entry contains `,` or `:` |
| `QueryOptions.FilterRoundTrip` | src/users/helpers/list-options.ts:30-36 | re-joining each entry with `:` and the entries with `,` gives back `f` |
| `QueryOptions.FilterOfJoinedEntries` | src/users/helpers/list-options.ts:30-36 | conversely, entries free of `,` and `:` that join to a non-empty string are exactly what that string translates to |
| `QueryOptions.FilterConditionsFields` | src/users/helpers/list-options.ts:42-48 | the fields constrained after `applyFilters` are exactly the entries' first parts |
| `QueryOptions.FilterConditionsLastWins` | src/users/helpers/list-options.ts:43-45 | an entry's field is constrained to the entry's second part (or `undefined`) unless a later entry names the same field |
| `QueryOptions.SingleFilter` | src/users/users.service.spec.ts:112-140 | `f = field:value` gives the single entry `[field, value]` and the single condition `field = value` (as `lastName:Doe` gives `{lastName: 'Doe'}`) |
| `QueryOptions.Defaults` | src/users/users.service.spec.ts:84-110 | with no query strings: offset 0, limit 10, no order, no filter |
| `QueryOptions.LimitCapped` | src/users/helpers/list-options.ts:16 | `l = 500` gives limit 100 |
| `QueryOptions.OrderWithoutCommas` | src/users/helpers/list-options.ts:23-28 | an order string without commas, such as `-firstName`, passes through unchanged |
| `QueryOptions.CustomizedList` | src/users/users.service.spec.ts:112-124 | `p=5, l=10, o=-firstName` gives offset 40, limit 10 and order `-firstName` |
| `Store.Matching` | src/users/users.service.ts:29-30 | the matching users are stored records that satisfy every condition, in strictly ascending id order |
| `Store.MatchingComplete` | src/users/users.service.ts:29-30 | every stored record that satisfies the conditions is among the matching users |
| `Store.Window` | src/users/users.service.ts:31-32 | skipping and limiting keeps the users from position `skip` on, as many as the limit allows (all of them for limit 0) |
| `Store.Exec` | src/users/users.service.ts:29-38 | a run fails exactly for a negative skip; otherwise every returned user is a stored, matching record with the selected-out fields removed, and a non-zero limit bounds the count |
| `Store.ExecWindow` | src/users/users.service.ts:29-38 | the returned users are exactly the matching users from the offset on, in ascending id order; with `m` matches left after the offset, their count is `m` when the limit is 0 or its magnitude is at least `m`, and the limit's magnitude otherwise; none are returned when the offset passes every match |
| `Store.ExecUnlimited` | src/users/users.service.ts:32 | with no skip and limit 0 every matching record is returned |
| `Store.Query.Where` | src/users/helpers/list-options.ts:44 | `where` adds the field to the conditions with the given value and keeps every other condition, the skip, the limit, the sort and the selection |
| `Store.FieldMatches` | src/users/users.service.ts:36-38 | one equality condition holds exactly when the field's value, read as null when the field is missing, equals the condition's value |
| `Store.Matches` | src/users/users.service.ts:36-38 | a record matches exactly when every condition's field reads as the condition's value; with no conditions every record matches |
| `Store.Document.Set` | src/users/users.service.ts:57 | assigning a schema path records it as modified and gives it the value (`undefined` removes it); a non-schema path changes nothing; other paths keep their values |
| `Store.Save` | src/users/users.service.ts:65 | saving writes the modified paths of the document over the stored record and keeps every other stored field |
| `Users.NewDocument` | src/users/users.service.ts:20 | a new document holds exactly the schema fields the body gives a value |
| `Users.Property` | src/users/users.service.ts:22 | `dto[k]` is the value of the body's property `k` (its last occurrence), and is absent when the body does not name `k` |
| `Users.UpdateStep` | src/users/users.service.ts:55-62 | one round of the loop: a schema property other than the password gets the body's value and is marked modified; a property outside the schema changes nothing; a non-empty password sets the hash to its encryption and marks the hash modified; an empty or `undefined` one changes nothing; the hash changes only for the password or `passwordHash` itself, and no field other than the property (and the hash) changes |
| `Users.ApplyUpdate` | src/users/users.service.ts:55-63 | the whole loop only adds modified paths, and only schema paths |
| `Users.Updated` | src/users/users.service.ts:48-66 | the record an update stores gains only schema fields and keeps every non-schema field |
| `Users.ApplyUpdateKeeps` | src/users/users.service.ts:55-63 | the update loop assigns schema paths only, and a path it does not assign keeps its value |
| `Users.ApplyUpdateDetermined` | src/users/users.service.ts:55-63 | what the loop assigns does not depend on the document's prior fields |
| `Users.SaveAfterUpdate` | src/users/users.service.ts:49-65 | saving the document loaded without the hidden fields stores the same record as updating the stored record itself |
| `Users.UpdateCopiesField` | src/users/users.service.ts:55-57 | every schema field the body names gets the body's value verbatim (`undefined` removes it); for `passwordHash` itself this holds when no non-empty password follows it in the body |
| `Users.UpdateAcceptsCallerHash` | src/users/users.service.ts:55-57 | any body that gives `passwordHash` the value `h` and has no `password` property stores `h` as the hash |
| `Users.UpdatePasswordOverridesHash` | src/users/users.service.ts:55-62 | a non-empty password that no `passwordHash` property follows sets the hash to its encryption, even when the body named `passwordHash` before it |
| `Users.UpdateKeepsUnnamed` | src/users/users.service.ts:55-63 | a field the body does not name keeps its value, the hash aside |
| `Users.UpdatePasswordHash` | src/users/users.service.ts:58-62 | for a body that does not name `passwordHash`: a non-empty password sets the hash to its encryption; a missing, `undefined` or empty one leaves the hash as it was |
| `Users.ListQuery` | src/users/users.service.ts:29-36 | the query `getList` runs constrains exactly the filter entries' fields, skips the options' offset, limits by the options' limit (never above 100), sorts by their order and hides `passwordHash` and `__v` |
| `Users.ZeroLimitListsAll` | src/users/helpers/list-options.ts:16 | with `l=0` and no page the listing returns every matching user, not at most 100 |
| `Users.MockEncrypt` | src/users/users.service.spec.ts:14-21 | the tests' stand-in hash is the password followed by more characters, so never the password itself |
| `Users.UsersService.Valid` | src/users/schemas/user.schema.ts:3-15 | ids are below the next one to assign, and records hold schema fields only, so never a plaintext password |
| `Users.UsersService.constructor` | src/users/users.service.ts:13-17 | the service attaches to an existing collection whose ids are below the counter and whose records hold schema fields, and keeps the given `encrypt` |
| `Users.UsersService.Create` | src/users/users.service.ts:19-26 | adds exactly one record under the next id of the counter, which then advances, so the counter never hands out an id twice (not even after a delete; a caller-supplied `_id` is outside the model); its fields are the body's schema fields with the hash set to `encrypt(password)`; no other record changes |
| `Users.UsersService.GetList` | src/users/users.service.ts:28-39 | returns the window of matching records (failing only for a negative offset); each returned user is a stored record that matches every filter, without its hash; a positive limit bounds the count |
| `Users.UsersService.GetOne` | src/users/users.service.ts:41-46 | absent exactly when no record has the id; otherwise that record without its hash |
| `Users.UsersService.Update` | src/users/users.service.ts:48-66 | an unknown id gives absent and changes nothing; otherwise the stored record is replaced by its updated form, other records stay, and the returned document is the loaded one after the loop |
| `Users.UsersService.Delete` | src/users/users.service.ts:68-70 | reports whether a record with the id existed; afterwards none has it, and all other records are unchanged |
| `Users.CreateScenario` | src/users/users.service.spec.ts:72-82 | creating a user with the mock strategy stores a record whose hash is the mock encryption of the password, not the password, and whose e-mail is the body's |
| `Users.UpdateScenario` | src/users/users.service.spec.ts:161-180 | updating a created user with new names, e-mail and password returns those values, and a hash that is the new password's encryption and differs from the old hash |
| `Users.KeepPasswordScenario` | src/users/users.service.spec.ts:182-204 | updating with an `undefined` password keeps the stored hash of the created user and stores the new e-mail |
| `Users.MissingScenario` | src/users/users.service.spec.ts:206-232 | updating an unknown id gives absent; deleting an existing user reports true, and deleting it again reports false |

## Left out

- Password hashing strategies: bcrypt and SHA-256 are calls into foreign libraries. `encrypt` is a parameter here, and `matches`, salting and cost factors are not modelled.
- The HTTP controller, modules, providers, `main.ts` and `app.module.ts` are framework wiring, with no logic of their own beyond mapping absence to not-found.
- DTO validation (`IsEmail`, length bounds) and the schema's `required` and `unique` rules are enforced by foreign code at the boundary and at save time. The model stores whatever the service assigns.
- JavaScript number coercion (`+string`, NaN, fractional pages) is not modelled. `p` and `l` are integers, and a non-integer or non-numeric `l` is outside the model.
- Store.Exec: the `sort` string is carried in the query but not applied. Results come in ascending id order, taken as the store's natural order.
- The `__v` version field, async/promise mechanics, and the lost update between concurrent `update` calls are not modelled. Every operation is one atomic step.
- Store.Matches: every filter key is read as a plain record field. MongoDB instead treats `$`-prefixed keys as operators (`$comment` matches every document, `$where` runs server-side JavaScript) and `_id` as the record id, which records here do not hold as a field. Operator-named and `_id` filter keys are outside the model.
- Users.NewDocument, Store.Document.Set: a body property named `_id` or `__v`, or after a document member such as `save`, is ignored here. In the source, `new Model(body)` keeps a caller's `_id`, so a record can be stored under a caller-chosen (even previously deleted) id or fail with a duplicate-key or cast error. In `update`, assigning `_id` redirects or breaks the following `save()`, and a property named `save` shadows the method, so `save()` throws. The model's `Create` always uses the counter and its `Update` of a known id always succeeds.
- Ids are natural numbers. A malformed ObjectId string is not modelled; with it, the store would raise a cast error in `getOne`, `update` and `delete`.
- Users.UsersService.Create: requires the body to carry a password, as the `CreateUserDto` type declares. What `encrypt` does with a missing password depends on the strategy.
