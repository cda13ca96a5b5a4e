# A/B bucketing snippet for Shopify storefronts, in Dafny

The snippet runs on every storefront page. It loads a visitor record from the
browser's local storage (key `ab.one_visitor`), or creates one with a random
UUID and some facts about the browser (device class, UTM parameters, referrer,
the `_shopify_y` cookie). It then picks the tests of the shop's catalogue that
apply to the page's template and the visitor's device. For each such test it
reuses the variant the visitor was already bucketed into, or draws one at
random, records the assignment, saves the visitor and announces the
assignment to the analytics pixel. For each test it then makes the `view`
query parameter of the page match the variant's suffix.

The project models the compiled snippet `dist/output.js` and its earlier
TypeScript source `src/main.ts`. That earlier version loads the visitor and
selects tests but assigns nothing. The modules are:

- `Common`: the records (test, variant, assignment, visitor) and the browser inputs.
- `Text`: JavaScript's `split` with a one-character separator, and `trim`.
- `Cookies`: `getCookie`.
- `Uuid`: `generateUUID`.
- `Context`: `getDeviceType`, `getUTMParameters` and `getReferringDomain`.
- `Selector`: `getRelevantTests`.
- `Reconciler`: `applyVariant`, as a decision (`NoOp`, `SetView(s)` or `DeleteView`) instead of a navigation.
- `Engine`: the assignment loop of `applyTests` as functions on values, with its invariants proved.
- `Identity`: `loadVisitor` and the visitor it creates.
- `Tracker`: the page state as a class: the visitor object, the storage slot (`saveVisitor`, `reset`) and the announced events. `applyTests` is an in-place loop proved to follow `Engine.ApplyAll`, and `init` puts load, select and apply together.
- `Draft`: the visitor loader and `init` of `src/main.ts`.

Randomness, storage, the URL, the user agent and the clock are parameters:

- `Math.random` becomes a sequence of nibbles for the UUID and one real in [0, 1) per relevant test for the variant draw.
- The stored record is an optional visitor.
- The current `view` parameter is a string, empty when the parameter is absent.
- The two user-agent regular expressions are two booleans.
- `new Date().toISOString()` is a timestamp string.

## Model

| member | source | states |
|---|---|---|
| Text.Split | dist/output.js:65 | `split(";")` always yields at least one piece, and no piece contains the separator |
| Text.JoinSplit | dist/output.js:65 | joining the pieces with the separator gives back the original string |
| Text.Trim | dist/output.js:67 | `trim()` shortens the string, and what is left neither starts nor ends with white space |
| Text.TrimKeepsMiddle | dist/output.js:67 | trimming keeps one contiguous part of the string and drops only white space on either side |
| Cookies.EntryKey | dist/output.js:67-68 | the key of an entry never contains `=` |
| Cookies.EntryValue | dist/output.js:67-69 | the value of an entry never contains `=`: what follows a second `=` is dropped |
| Cookies.Lookup | dist/output.js:66-72 | the value found never contains `=`; `LookupNone` and `LookupFirstMatch` pin down which value it is |
| Cookies.CookieValue | dist/output.js:64-73 | the raw (undecoded) value of the first entry of `document.cookie` whose key is `name`; `null` exactly when no entry has that key; the raw value never contains `=` |
| Cookies.GetCookie | dist/output.js:64-73 | the `for…of` loop with its early return yields the first matching entry's value, or `null` (None) when no key matches; `src/main.ts:73-84` has the same code |
| Cookies.LookupNone | dist/output.js:66-72 | `null` is returned exactly when no trimmed entry has the key `name` |
| Cookies.LookupFirstMatch | dist/output.js:66-71 | a value returned is that of the first entry whose trimmed key equals `name` |
| Cookies.FirstCookieWins | dist/output.js:64-73 | a later entry with the same name never changes the value read |
| Cookies.SetCookieReadBack | dist/output.js:64-73 | an entry `name=value` is read back as `value`, also with more entries after it |
| Uuid.VariantBits | dist/output.js:59 | `(r & 0x3) \| 0x8` is one of 8–11 and keeps the two low bits of the draw |
| Uuid.HexDigit | dist/output.js:60 | `v.toString(16)` of a draw is a lower-case hex digit |
| Uuid.Fill | dist/output.js:58-61 | the `replace` callback keeps the template's length; `x` becomes a lower-case hex digit, `y` one of `8`, `9`, `a`, `b`, and other characters stay |
| Uuid.TemplatePlaceholders | dist/output.js:58 | the template has 31 placeholders, so 31 draws are made |
| Uuid.GenerateUuid | dist/output.js:57-62 | the result has 36 characters, hyphens at 8, 13, 18 and 23, `4` at 14, one of `89ab` at 19 and lower-case hex elsewhere; `src/main.ts:64-70` has the same code |
| Uuid.UuidIsGenerated | dist/output.js:57-62 | conversely, every string of that layout is produced by some draws |
| Context.DeviceType | dist/output.js:25-32 | the result is never a tablet; it is mobile exactly when either user-agent test matches; `src/main.ts:29-36` has the same code |
| Context.UtmFold | dist/output.js:49-54 | the `reduce` adds a key exactly when its query value is truthy, with that value, and keeps the accumulator's other keys |
| Context.UtmParameters | dist/output.js:40-55 | only the five `utm_*` keys appear; a key is present exactly when the query gives it a non-empty value, and then maps to that value; `src/main.ts:46-61` has the same code |
| Context.ReferringDomain | dist/output.js:34-38 | the domain is empty exactly when there is no referrer or its URL has no host; otherwise it is that host |
| Selector.Filter | dist/output.js:126-132 | the `filter` never lengthens the catalogue |
| Selector.Keep | dist/output.js:126-132 | the callback's two early `return false`s keep a test exactly when its device type is the visitor's or `all` and its category is the template name |
| Selector.FilterMembers | dist/output.js:126-132 | a test survives the `filter` exactly when its callback returns true |
| Selector.RelevantTests | dist/output.js:123-134 | empty for an empty catalogue; a test is kept exactly when its device type is the visitor's or `all` and its category is the template name; `src/main.ts:145-171` has the same code (its `liveTests` is computed and unused) |
| Selector.RelevantTestsInOrder | dist/output.js:126-133 | the survivors keep catalogue order: they sit at increasing positions of the input |
| Selector.RelevantTestsAppend | dist/output.js:126-133 | selecting from two catalogues joined is joining the two selections |
| Selector.AllDevicesTestSelected | dist/output.js:127-131 | a catalogue test for `all` devices is selected for visitors on every device exactly when its category is the page's template |
| Selector.RelevantTestsIdempotent | dist/output.js:126-133 | selecting again from the selection changes nothing |
| Reconciler.ApplyVariant | dist/output.js:165-186 | no-op exactly when `view` already equals the suffix; `view` is deleted exactly when it is set and the suffix is empty; otherwise `view` is set to the suffix |
| Reconciler.ReconcileConverges | dist/output.js:165-186 | after the action `view` equals the suffix, and on the reloaded page the decision is a no-op |
| Reconciler.Actions | dist/output.js:161 | one decision per processed test, each against the same `view` |
| Engine.FindAssignment | dist/output.js:142 | `find` returns nothing exactly when no assignment has the test id; what it returns has that id |
| Engine.FindInExtended | dist/output.js:142 | appending assignments never hides one that `find` already returned |
| Engine.PickIndex | dist/output.js:151 | `Math.floor(Math.random() * n)` is a valid index into `n` variants |
| Engine.Resolve | dist/output.js:140-156 | an existing assignment is reused exactly when the test id is assigned; otherwise the new entry has the test id, the current time and a suffix the test offers; a test with no variants fails |
| Engine.ResolveAgainReuses | dist/output.js:142-156 | once a test is assigned, resolving it again with any draw at any time reuses that suffix |
| Engine.ApplyAll | dist/output.js:136-163 | at most one suffix per test, and one for every test when no `TypeError` ends the loop |
| Engine.Step | dist/output.js:139-162 | one loop iteration: once the loop has ended nothing changes, and a failing test leaves the assignments and suffixes as they were |
| Engine.Trace | dist/output.js:139-162 | the states of the loop before each test: each is one `Step` after the previous one, a failed run stays as it is, and the last is `ApplyAll` |
| Engine.ApplyAllStopsAtCrash | dist/output.js:151 | after the `TypeError` the later tests change nothing |
| Engine.ApplyAllExtends | dist/output.js:152-156 | the old assignments are a prefix of the new ones: no entry is changed or removed |
| Engine.ApplyAllNewEntries | dist/output.js:148-157 | each new entry is for a relevant test the visitor had no assignment for, with a suffix that test offers and the current time, and no test gets two |
| Engine.ApplyAllKeepsUnique | dist/output.js:139-162 | unique test ids among the assignments stay unique, even when the relevant tests repeat an id |
| Engine.ApplyAllRecall | dist/output.js:139-162 | after a complete run, `find` returns for each processed test the suffix that was applied for it |
| Engine.ApplyAllCovers | dist/output.js:139-162 | after a complete run, every relevant test's id appears among the assignments |
| Engine.ApplyAllStable | dist/output.js:139-162 | running the loop again over the same tests, with any draws at any later time, appends nothing and applies the same suffixes |
| Engine.TwoNewTests | dist/output.js:139-162 | two unassigned tests with variants and distinct ids give exactly two new entries, in order |
| Identity.FreshVisitor | dist/output.js:88-109 | a created visitor has a UUID-shaped id, no assignments, the current time, a non-tablet device, only UTM keys, no referring domain without a referrer, and the `_shopify_y` cookie read as `ShopifyClientId` |
| Identity.HasStoredId | dist/output.js:86-88 | `!visitor.id`: an empty slot (parsed from `"{}"`) has no id, and a record whose id is a generated UUID has one; `src/main.ts:101-104` makes the same test on its own record |
| Identity.ShopifyClientId | dist/output.js:93 | `getCookie("_shopify_y") \|\| ""`: a cookie that is present gives its raw value as the id; a missing one gives `""` |
| Identity.LoadVisitor | dist/output.js:85-112 | a stored record with a non-empty id is returned unchanged; otherwise the fresh visitor, and `foundVisitor` says which |
| Tracker.Session.constructor | dist/output.js:194 | the page starts with the loaded visitor and the slot as it was found; nothing is announced yet |
| Tracker.Session.Save | dist/output.js:114-117 | `saveVisitor` overwrites the slot with the whole visitor and changes nothing else |
| Tracker.Session.Reset | dist/output.js:200-203 | `reset` empties the slot and changes nothing else |
| Tracker.Session.ApplyTest | dist/output.js:140-160 | the page moves with the run by one `Step`: `ok` is false exactly when the test needs a draw and has no variant; the suffix is the one `Step` records; the visitor gains exactly the entry `Step` appends, which is saved and announced, while a reuse or a failure writes and announces nothing (`Follows` is kept) |
| Tracker.Session.ApplyTests | dist/output.js:136-163 | the page ends reflecting `ApplyAll` (`Follows`): the visitor has exactly its assignments and is otherwise unchanged; each new entry is announced, in order; storage holds the final visitor when anything was assigned and is untouched otherwise; one `applyVariant` decision per processed test; `completed` is false exactly when a `TypeError` ends the loop |
| Tracker.Init | dist/output.js:191-199 | load, select for the loaded visitor's device, apply: the page reflects `ApplyAll` from the loaded visitor, so storage changes only when some test was newly assigned, and a new visitor with no relevant tests is not saved |
| Tracker.SavedVisitorKeepsBuckets | dist/output.js:85-163 | once `init` has newly assigned a test, the slot holds a record with an id and the same device, so the next page load reuses it, and applying the same tests again with any draws at any later time assigns nothing new and applies the same suffixes |
| Tracker.FreshVisitorSkipsTabletTests | dist/output.js:25-32 | since a tablet reports itself as mobile, a visitor created on this page is never selected for a tablet-only test |
| Draft.FreshDraftVisitor | src/main.ts:107-125 | a created visitor has a UUID-shaped id, an empty `tests` list, the current time and a non-tablet device |
| Draft.LoadDraftVisitor | src/main.ts:98-131 | a stored record with a non-empty id is returned unchanged; otherwise the fresh visitor |
| Draft.DraftInit | src/main.ts:177-199 | the tests selected come from the visitor's own `tests`, never the catalogue, so a new visitor gets none |

## Left out

- Emitting to `Shopify.analytics.publish` and its try/catch are not modelled. The events are recorded in the ghost field `Tracker.Session.published`, as the assignments they announce; each event carries the entry's `variantSuffix`.
- `log` and `error` console output is not modelled.
- The `Shopify.designMode` early exit of `init` is not modelled: `Tracker.Init` and `Draft.DraftInit` model the branch that runs.
- `validateConditions` is not modelled: it is never called and its result is discarded.
- `src/global.d.ts` is not part of this model. It declares types only.
- `JSON.parse` is not modelled, and neither is its exception on a corrupt stored record. The storage slot holds a parsed record or nothing. A record without an `id` is one whose id is empty.
- The user-agent regular expressions, `URLSearchParams`, `new URL(...).hostname` and `Date().toISOString()` are not evaluated. Their outcomes are inputs.
- Cookies.GetCookie, Cookies.CookieValue, Identity.ShopifyClientId: return the raw value; the `decodeURIComponent` percent-decoding and the `URIError` it can throw are not modelled.
- Context.UtmParameters: the query is a map from each parameter to its first value. Repeated parameters and percent-decoding are left to `URLSearchParams`.
- Engine.PickIndex: `Math.random() * n` is exact real multiplication here; the rounding of IEEE-754 doubles is not modelled.
- Engine.ApplyAll: the draw for a relevant test is the roll at that test's position, including for tests that reuse an assignment and draw nothing. The model does not capture how many times `Math.random` is called.
- Identity.FreshVisitor: `createdAt` and every `assignedAt` of one page load share one timestamp, where the source reads the clock at each use.
- Weighted variant selection is not modelled: the source draws uniformly and only notes weighting as future work.
- Whether `location.replace` ends the script is not modelled. The loop continues after a navigation and `view` is read once per page, as `window.location.href` keeps its value until the page unloads.
- Concurrent page loads in several tabs writing the same storage slot are not modelled.
- Test `conditions` and a variant's fields other than `id` and `suffix` are not modelled: nothing in the core reads them.
