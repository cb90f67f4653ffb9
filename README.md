# User administration front end: a verified model

This Dafny project models the logic core of a small user-administration web front end. The core has five parts:

- **Mock user service.** An in-memory user table with login, paged and filtered queries, and create, read, update and delete. It has a static role-to-permission table. A one-shot `simulatedError` switch makes the next call fail.
- **Authentication store.** It holds the in-memory session state, the snapshot persisted under the storage key `auth`, and the 15-minute session-expiry timer.
- **Route guard.** It sends visitors without a session to `/login`. It renews the session timer of signed-in users. It admits a route when the user holds any one of the route's permissions, and otherwise sends them to `/401`.
- **`useHasPermission` and `useFiltersToQueryParams`.** The first is the view-level permission check. The second builds the query string that the user list passes as `getUsers`'s `filter`.
- **`getRecordProperty`.** It reads a dotted key out of a table row.

Modules:

| file | module | models |
|---|---|---|
| `wrappers.dfy` | `Wrappers` | `Option`, `Result` |
| `api_types.dfy` | `ApiTypes` | the `User` record, roles and statuses, object spread |
| `sequences.dfy` | `Sequences` | `split`, `join`, `findIndex`, `some` |
| `js_text.dfy` | `JsText` | `toLowerCase`, `includes`, and string `<` on UTF-16 code units |
| `utf8.dfy` | `Utf8` | UTF-8 encoder and decoder (Encoding Standard, section 8.1) |
| `uri_component.dfy` | `UriComponent` | `encodeURIComponent` (ECMA-262, section 19.2.6) |
| `form_urlencoded.dfy` | `FormUrlencoded` | the `URLSearchParams` string parser (WHATWG URL Standard, section 5.1) |
| `query_roundtrip.dfy` | `QueryRoundTrip` | why encoded text survives that parser |
| `user_query.dfy` | `UserQuery` | the filter, sort and slice of `getUsers` |
| `mock_api.dfy` | `Api` | the service, as class `MockApi` |
| `auth_store.dfy` | `Auth` | the store, as class `AuthStore` |
| `helpers.dfy` | `Helpers` | the two composables |
| `route_guard.dfy` | `RouteGuard` | the guard and the route table |
| `data_table.dfy` | `DataTable` | `getRecordProperty` |

State that the source changes in place is modelled as class fields:
- the user table and `simulatedError`, in `MockApi`;
- the store's refs, its timer handle, the pending runtime timers, the storage entry and the router's navigation history, in `AuthStore`.

Every `getUsers` result is proved to satisfy `UserQuery.Answers`. That predicate says the page is a slice of some sorted permutation of the matching records. The insertion sort `SortInPlace` works in place on an array.

Some parameters stand in for the outside world:
- a timestamp string `now` replaces `new Date().toISOString()`;
- an integer clock `now` replaces the timer runtime's clock;
- `Auth.AuthStore.Elapse(now)` fires the session timer once its deadline has passed.

Points where the code behaves in ways a reader might not expect, all modelled as written:
- `createUser` takes the last record's id + 1, not the largest id + 1. Under `Api.IdsIncreasing` the two coincide (`Api.LastIdIsMax`).
- In `createUser`, the caller's fields are spread after the defaults. A supplied `status` therefore wins over PENDING, and a supplied `id` or `dateJoined` wins too (`Api.NewRecord`).
- Only `login` strips the password. `getUsers`, `getUser`, `createUser` and `updateUser` return the stored records, password included, although `getUsers` declares `Omit<User, 'password'>[]` as its result type.
- Every service failure is thrown, not returned as an envelope. The store only sees a declared failure (`isSuccess` false) from a substitute service. `Auth.LoginOutcome` covers both paths, and `Auth.AuthStore.Login` composes the real service with them.
- A declared failure sets `permissions` to null. A thrown one sets it to `[]` and leaves storage alone, so an earlier snapshot survives.
- `deleteUser`'s simulated-error message is the update message, "User is not updated, something went wrong". It is modelled as written.
- `createUser` on an empty table throws while reading the id of the missing last record. The table stays unchanged.
- Because the required list is any-of, a MANAGER, who lacks `add_users`, is admitted to `/users/create` (`RouteGuard.ManagerAdmittedByAnyOf`).
- With page 1 and a limit of -k, the page is the table without its last k records, empty only when k reaches the table's length, because `slice` counts a negative end from the back (`UserQuery.FirstPageNegativeLimit`). On later pages a negative limit can also give an empty page.

## Model

| member | source | states |
|---|---|---|
| ApiTypes.Merge | src/api/mockApi.ts:189 | the shallow merge `{ ...record, ...patch }`, field by field: a field the patch supplies takes the patch's value, and every field it leaves out keeps the record's |
| Api.PermissionsNested | src/api/mockApi.ts:20-33 | VIEWER's permissions are a strict subset of MANAGER's, which are a strict subset of ADMIN's |
| Api.Authenticate | src/api/mockApi.ts:59-74 | login succeeds iff the first record with exactly this email and password is not INACTIVE. Success returns that record without its password and its role's permissions. No match gives 'User Not Found'; an inactive first match gives 'User is not active' |
| Api.FindById | src/api/mockApi.ts:185 | `findIndex` on the id: the first index holding it, or none when no record has it |
| Api.LookupUser | src/api/mockApi.ts:141-145 | `getUser` fails with 'User Not Found' iff no record has the id; otherwise it returns the first record with it |
| Api.LastIdIsMax | src/api/mockApi.ts:163 | with strictly increasing ids the last record carries the largest id, so "last + 1" is "largest + 1" |
| Api.IdsIncreasingUnique | src/api/mockApi.ts:141 | with strictly increasing ids no two records share an id, so every lookup by id (`find` here, `findIndex` at lines 185 and 202) finds the only one |
| Api.AppendKeepsIdsIncreasing | src/api/mockApi.ts:163-169 | appending a record with the last id + 1 keeps the ids strictly increasing |
| Api.RemoveAt | src/api/mockApi.ts:206 | `splice(k, 1)` removes exactly that one record: the multiset loses it, the rest keep their order and increasing ids, and its id is gone from the table |
| Api.NewRecord | src/api/mockApi.ts:162-167 | the created record takes the supplied id, status and date, falling back to the given id, PENDING and the call time; its other fields come from the input |
| Api.MockApi.constructor | src/api/mockApi.ts:16-36 | the service starts with the given table and the switch off |
| Api.MockApi.Login | src/api/mockApi.ts:38-75 | with the switch set the call fails with 'Something went wrong'; otherwise it answers as `Authenticate`. The switch ends cleared and the table unchanged |
| Api.MockApi.GetUsers | src/api/mockApi.ts:77-129 | with the switch set the call fails; otherwise it succeeds with a correct answer to the query (`Answers`). The table never changes |
| Api.MockApi.GetUser | src/api/mockApi.ts:131-146 | with the switch set the call fails; otherwise it answers as `LookupUser`. The table is unchanged |
| Api.MockApi.CreateUser | src/api/mockApi.ts:148-172 | with the switch set, or on an empty table, the call fails with the table unchanged. Otherwise it appends exactly `NewRecord` with id = last id + 1 and leaves every earlier record as it was. Increasing ids are kept when no id is supplied |
| Api.MockApi.UpdateUser | src/api/mockApi.ts:174-192 | with the switch set or an unknown id the call fails with the table unchanged. Otherwise only the first record with the id is replaced by the merge; length and other records stay, the merged record is returned, and increasing ids are kept |
| Api.MockApi.DeleteUser | src/api/mockApi.ts:194-209 | with the switch set or an unknown id the call fails with the table unchanged. Otherwise exactly the first record with the id is removed and the rest keep their order; under increasing ids the id is then absent |
| Api.CreateDeleteScenario | src/api/mockApi.ts:148-209 | over records 1 and 2 a created record gets id 3 and PENDING; after deleting record 1 it cannot be fetched ('User Not Found'); a simulated error fails exactly one call and the next fetch of record 2 succeeds |
| Api.MockApi.GetRoles | src/api/mockApi.ts:211-214 | the list is exactly [ADMIN, MANAGER, VIEWER], in that order (the constant of line 18), so every role is in it; this call ignores the switch |
| UserQuery.FilterUsers | src/api/mockApi.ts:103-116 | each record that passes every filter entry occurs in the result exactly as often as in the table, and a record that fails one does not occur; there are no more records than in the table |
| UserQuery.FilterAppend | src/api/mockApi.ts:106-115 | the filter distributes over concatenation, so the kept records stay in table order |
| UserQuery.Matching | src/api/mockApi.ts:103-116 | an absent or empty filter keeps the table as it is; otherwise each record occurs as often as in the table when it passes every entry the query string parses to, and not at all otherwise |
| UserQuery.EntryMatchesIff | src/api/mockApi.ts:107-114 | an entry passes iff the field is a string and its lower-cased text contains the lower-cased value at some position (number and absent fields never pass) |
| UserQuery.EntryMatchesIgnoresCase | src/api/mockApi.ts:111 | lower-casing the filter value does not change the outcome |
| UserQuery.IdFilterMatchesNothing | src/api/mockApi.ts:112-113 | a filter with an `id` entry keeps no record, because the number id is never `===` to a string |
| UserQuery.FilterNoEntries | src/api/mockApi.ts:103-116 | a filter with no entries keeps every record, in order |
| UserQuery.AfterAsymmetric | src/api/mockApi.ts:118-123 | the comparator never puts each of two records after the other |
| UserQuery.NotAfterTransitive | src/api/mockApi.ts:118-123 | "not placed after" is transitive for every field and order, which is what makes a sorted result well defined although ties return -1 both ways |
| UserQuery.SortInPlace | src/api/mockApi.ts:118-123 | the array ends sorted by the field (non-decreasing for 'asc', non-increasing for 'desc', absent values as '') and is a permutation of its old contents |
| UserQuery.SortedCopy | src/api/mockApi.ts:101-123 | the copy is sorted and a permutation of the records |
| UserQuery.RelativeIndex | src/api/mockApi.ts:128 | a `slice` index is clamped into [0, length]: a non-negative index is itself or the length, and a negative one counts back from the end, stopping at 0 |
| UserQuery.Slice | src/api/mockApi.ts:128 | `slice(start, end)` is the records from the relative start up to the relative end, in order, and empty when the end is not after the start |
| UserQuery.PageOf | src/api/mockApi.ts:125-128 | the page is no longer than the list; it runs from the relative index of `(page - 1) * limit` to that of `(page - 1) * limit + limit`, holding the list's records in order, and is empty when the end is not after the start |
| UserQuery.SliceBounds | src/api/mockApi.ts:128 | a slice with start ≤ end is no longer than the list nor than end - start |
| UserQuery.PageBounds | src/api/mockApi.ts:125-128 | for limit ≥ 0 the page holds at most `limit` records and at most as many as matched |
| UserQuery.PageWindow | src/api/mockApi.ts:125-128 | for page ≥ 1 and limit ≥ 0 the page is the window starting at (page - 1) * limit, of length `limit` cut at the end of the list |
| UserQuery.FirstPageNegativeLimit | src/api/mockApi.ts:125-128 | page 1 with limit -k (k > 0) is the list without its last k records, and empty only when k is at least the list's length |
| UserQuery.NegativeLimitPage | src/api/mockApi.ts:125-128 | `limit = -1` on page 1 of three records gives the first two, not an empty page |
| UserQuery.SecondPageExample | src/api/mockApi.ts:125-128 | page 2 with limit 1 over three records is exactly the second record |
| UserQuery.QueryUsers | src/api/mockApi.ts:101-128 | `total` is the number of matching records and the page is that slice of a sorted permutation of them, with defaults page 1, limit 20, 'name', 'asc' |
| JsText.ToLower | src/api/mockApi.ts:111 | lower-casing keeps the length and maps every character independently |
| JsText.ToLowerIdempotent | src/api/mockApi.ts:111 | lower-casing twice is lower-casing once |
| JsText.IncludesIff | src/api/mockApi.ts:111 | `includes` holds iff the needle occurs at some index |
| JsText.StringLessAsymmetric | src/api/mockApi.ts:122 | string `<` never holds both ways |
| JsText.StringNotLessTransitive | src/api/mockApi.ts:122 | "not less than" on strings is transitive (code-unit order is total) |
| Sequences.JoinSplit | src/composables/dataTable.composables.ts:14 | joining the pieces of a split gives the original text back |
| Sequences.SplitJoin | src/composables/helpers.composables.ts:45 | splitting a join of separator-free pieces gives the pieces back |
| Sequences.SplitAtFirst | src/api/mockApi.ts:104 | the pieces before and after the first separator rebuild the input, the first holds no separator, and without a separator all of it is the first piece |
| Sequences.IndexWhere | src/api/mockApi.ts:185 | `find`/`findIndex` (also at lines 59, 141 and 202): the first index satisfying the test, or none when no element does |
| Sequences.SomeIn | src/middleware/routeGuard.ts:29 | `some(p => held.includes(p))` holds iff some element is in both lists |
| Utf8.DecodeEncode | src/api/mockApi.ts:104 | the parser's UTF-8 decoder reads back every string the encoder writes |
| UriComponent.EncodeUriComponent | src/composables/helpers.composables.ts:44 | the encoding holds only unreserved characters and '%', never '&', '=', '+' or '?' |
| UriComponent.EncodeUnreserved | src/composables/helpers.composables.ts:44 | text of unreserved characters is its own encoding |
| FormUrlencoded.PlusToSpace | src/api/mockApi.ts:104 | every '+' of the query becomes a space and nothing else changes |
| FormUrlencoded.ParseBytesAppend | src/api/mockApi.ts:104 | `new URLSearchParams(filter)` reads the `&`-separated pieces one by one: the entries of `a&b` are those of `a` followed by those of `b` |
| FormUrlencoded.ParseDropsQuestionMark | src/api/mockApi.ts:104 | exactly one leading '?' of the init string is dropped; without one, all of the string is parsed |
| Sequences.SplitAppend | src/api/mockApi.ts:104 | splitting at a separator splits the two sides independently |
| QueryRoundTrip.ComponentRoundTrip | src/composables/helpers.composables.ts:44 | decoding a percent-encoded component as the parser does gives the original text, for every string |
| QueryRoundTrip.PieceRoundTrip | src/composables/helpers.composables.ts:44 | `enc(k)=enc(v)` parses back to the pair (k, v) |
| Auth.OutcomeOf | src/stores/auth.ts:24-31 | the service resolves only with a success, and the store reads from it the reply's message, its user and that user's permissions; a failure reaches the store as a rejection with the thrown message |
| Auth.AuthStore.constructor | src/stores/auth.ts:17-22 | initially not authenticated, with no user, no permissions, no error and no timer; the persisted snapshot is whatever storage held |
| Auth.AuthStore.AuthenticatedUserData | src/stores/auth.ts:84-87 | the snapshot the store exposes is the persisted one, not the in-memory fields |
| Auth.AuthStore.ResetSessionTimeout | src/stores/auth.ts:72-82 | afterwards exactly one timer is pending, the new one, due 15 * 60 * 1000 ms (the constant of line 21) after the call; nothing else changes |
| Auth.AuthStore.Logout | src/stores/auth.ts:62-70 | from any state: user null, permissions [], not authenticated, no error, no timer, no snapshot; a second call changes nothing |
| Auth.AuthStore.Settle | src/stores/auth.ts:33-59 | success: user and permissions from the reply, authenticated, no error, snapshot persisted, exactly one fresh timer. Declared failure: user and permissions null, error = message, storage and timer untouched. Thrown failure: the same with permissions [] |
| Auth.AuthStore.Login | src/stores/auth.ts:24-60 | the store ends as `Settle` leaves it for the service's answer to these credentials; the service table is unchanged |
| Auth.AuthStore.Elapse | src/stores/auth.ts:74-81 | once the clock reaches the timer's deadline the store ends in the logout state and navigates to '/login'; any earlier, nothing changes |
| Auth.SessionExpiry | src/stores/auth.ts:21-82 | a MANAGER who logs in is signed in with the MANAGER permissions; one millisecond before the 15-minute deadline the session is still on, at the deadline it is logged out with one navigation to '/login', and a further logout changes nothing |
| Helpers.HasPermission | src/composables/helpers.composables.ts:28-37 | a single name is granted iff it is held; a list is granted iff some member is held. An absent snapshot throws, and absent permissions throw unless the list is empty |
| Helpers.SingletonListIsSingle | src/composables/helpers.composables.ts:32-36 | asking for `[p]` answers as asking for `p`, errors included |
| Helpers.EmptyListIsFalse | src/composables/helpers.composables.ts:36 | the empty list is never granted |
| Helpers.HasPermissionMonotone | src/composables/helpers.composables.ts:36 | holding more permissions never turns a granted check into a refusal |
| Helpers.KeepNonEmpty | src/composables/helpers.composables.ts:43 | an entry survives iff its value is non-empty |
| Helpers.KeepNonEmptyAppend | src/composables/helpers.composables.ts:43 | the filter distributes over concatenation, so surviving entries keep their order |
| Helpers.EncodeEntry | src/composables/helpers.composables.ts:44 | an encoded entry holds an '=' and otherwise only encoded characters |
| Helpers.FiltersToQueryParams | src/composables/helpers.composables.ts:39-46 | the query string holds only encoded characters, '=' and '&', so never a leading '?' |
| Helpers.FiltersRoundTrip | src/composables/helpers.composables.ts:39-46 | parsing the query string as `URLSearchParams` does gives exactly the non-empty entries, in order, for all keys and values |
| Helpers.FiltersSelect | src/composables/helpers.composables.ts:39-46 | `getUsers` with this query string as its filter keeps exactly the records that pass every non-empty entry |
| Helpers.PlainQuery | tests/composables/helpers.composables.spec.ts:63-72 | for lower-case words, two entries `{k1: v1, k2: v2}` give `k1=v1&k2=v2`, and an empty second value is dropped, giving `k1=v1` (the shape of the `{search: 'test', category: 'books'}` examples) |
| RouteGuard.Decide | src/middleware/routeGuard.ts:11-38 | without a session: admit iff the path is '/login', else redirect there. With one: admit when the list is empty or any required permission is held; when the list is non-empty and none of it is held, redirect to '/401' unless already there |
| RouteGuard.NoRedirectLoop | src/middleware/routeGuard.ts:14-38 | a redirect never targets the path being visited, and only targets '/login' or '/401' |
| RouteGuard.DecideMonotone | src/middleware/routeGuard.ts:27-31 | more permissions never turn an admitted navigation into a redirect |
| RouteGuard.DashboardForEveryRole | src/router/index.ts:17-25 | every signed-in role reaches the dashboard |
| RouteGuard.ViewerKeptFromUserList | src/router/index.ts:26-34 | a VIEWER is redirected from the user list to '/401' |
| RouteGuard.ManagerAdmittedByAnyOf | src/router/index.ts:35-52 | a MANAGER lacks `add_users`, yet reaches the create page and the profile page through any-of |
| RouteGuard.AdminEverywhere | src/router/index.ts:16-76 | an ADMIN is admitted to every route of the table |
| RouteGuard.AnonymousToLogin | src/router/index.ts:16-76 | without a session every route other than '/login' redirects to '/login' |
| RouteGuard.Guard | src/middleware/routeGuard.ts:4-39 | returns `Decide` on the persisted snapshot. Without a session the store is untouched; with one the session timer is renewed exactly once and nothing else changes |
| DataTable.GetRecordProperty | src/composables/dataTable.composables.ts:1-21 | a string item is returned as is, a null or undefined item gives '-', and the result is never null or undefined |
| DataTable.NullAbsorbs | src/composables/dataTable.composables.ts:15-18 | once the lookup reaches null it stays null |
| DataTable.WalkAppend | src/composables/dataTable.composables.ts:14 | the reduce over a concatenation of segments is the reduce over each part in turn |
| DataTable.WalkIsLookup | src/composables/dataTable.composables.ts:14-19 | the reduce reaches the value at the end of an existing path, and null when a segment is missing or meets a non-object |
| DataTable.MissingSegment | src/composables/dataTable.composables.ts:15-19 | a missing segment or a non-object intermediate value gives '-' |
| DataTable.SingleSegment | src/composables/dataTable.composables.ts:13-19 | a key without dots that is present gives that field's value, or '-' when the value is null or undefined |
| DataTable.NestedKey | src/composables/dataTable.composables.ts:14-16 | each dotted segment descends one level |
| DataTable.FalsyLeaves | src/composables/dataTable.composables.ts:19 | a present 0 or '' is returned as is, whereas a present null gives '-' |
| DataTable.NestedField | src/composables/dataTable.composables.ts:14-19 | for segments without dots, `outer.inner` on `{outer: {inner: v}}` gives v, or '-' when v is null or undefined |
| DataTable.StringIntermediate | src/composables/dataTable.composables.ts:15-18 | a key whose first segment meets a string gives '-', whatever the rest of the key |

## Left out

- Latency: the random delay before every service call (src/api/mockApi.ts:6-14) is randomness and timing. Each call is an atomic method.
- Promises, `await` and `async`: a call is an ordinary method call, and a thrown failure object is a `Result` failure.
- `new Date().toISOString()`: `createUser` takes the timestamp as an opaque string parameter.
- `Number(id)`: ids are integers, so the coercion is the identity.
- The seed data (`src/data/users`): it is not part of this model, so the constructor takes the initial table.
- Serialization and browser storage: `JSON.stringify`, `JSON.parse` and `localStorage` are an `Option<Snapshot>` field, written, read and removed whole. A parse error is not modelled; the code does not catch one.
- A snapshot field missing from stored JSON: a missing `isAuthenticated` reads as false, as the guard's `?? false` does.
- Vue and Pinia machinery: refs, reactivity, `defineStore` and `useRouter` are left out. So is the caching of the `computed` snapshot: it is modelled as re-reading storage on every access (`AuthenticatedUserData`).
- Toast: the expiry toast (src/stores/auth.ts:77-79) is not modelled. `router.push('/login')` is recorded in `navigations`.
- Timer handles: the runtime's handles are consecutive naturals starting at 1, and real time is an integer clock read by `Elapse`.
- The route table: the guard receives the path and its route's permission list, as they come from the matched route. Path matching itself is left out.
- Layouts and the rest of the app: the layout loader, the click-away directive, app bootstrap, the sidebar data and styling configuration contain no modelled logic.
- `useDebounce` and `useFormatDate`: the first is a timer and a watcher, the second a call into a date library.
- JsText.ToLower: models ASCII case mapping only; Unicode case mapping of other letters is not modelled.
- JsText.StringLess: Dafny strings hold Unicode scalar values, so lone surrogates cannot occur. Comparison is on the UTF-16 code units of the scalars.
- Helpers.FiltersRoundTrip: holds for all strings of scalar values. Strings with lone surrogates, where `encodeURIComponent` throws, are not modelled.
- UserQuery.SortInPlace: an insertion sort stands in for the engine's sort. ECMA-262 leaves the order of a comparator that is inconsistent on ties to the implementation, so the model claims only what a sort by this comparator gives: sorted by the key and a permutation. Tie order is not fixed.
- UserQuery.FieldString: reads only the seven fields of a user record. An inherited property such as `toString`, visible to `user[key]`, is not modelled.
- DataTable.Step: `k in val` also sees inherited properties (for example `constructor`), which are not modelled. Arrays are not among the modelled values, and numbers are integers.
- Helpers.FiltersToQueryParams: the filter record is given as its entry list. `Object.entries`' placement of integer-like keys first is not modelled.
- Api.NewRecord: a field explicitly set to `undefined` in the input is not distinguished from a missing one; both leave the default.
- ApiTypes.Merge: likewise, a patch field explicitly set to `undefined` is modelled as absent, so it keeps the record's value where the spread would overwrite it with `undefined`.
- Sharing: results are modelled as values. `getUser`, `createUser`, `updateUser` and `getUsers` return the table's own record objects, `getRoles` the module's `roles` array and `login` the shared `rolePermissions` entry, so mutating a result would mutate the service's data. A record held from `getUser` also goes stale once `updateUser` replaces it. Neither effect is modelled.
- UserQuery.QueryUsers: `page` and `limit` are integers. Fractional, NaN or infinite numbers, which `slice` truncates through ToIntegerOrInfinity and of which NaN becomes 0, are not modelled.
- Helpers.HasPermission: `NoPermissions` is the engine's message for a null `permissions`. A snapshot without a `permissions` key reads as the same absent value, so the message for `undefined` is not distinguished.
- Api.MockApi.CreateUser: the input type names the fields the caller must give (name, email, role). The precondition asks for exactly those.
- Helpers.PlainQuery: states the two documented examples for arbitrary lower-case words. The literal words of the examples are instances of it and are not stated on their own.
- DataTable.NestedField and DataTable.StringIntermediate: state these lookups for arbitrary dot-free field names rather than for particular literals.
