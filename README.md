# A verified model of `L.state`, the URL-backed state store

`L.state` keeps a page's state in its query string. It has three pieces of state.

- The parameter list is a `URLSearchParams` kept sorted by key, with one value per key.
- The configuration Map gives each key an optional `default` (the field `defaultValue` of `Entry`), an optional list of `options` and an optional list of `aliases`.
- The alias Map sends each alias to the long-form key it was registered for.

This is what the store does:

- `configure` merges entries into the configuration and registers their aliases.
- `aliased` maps between keys and their aliases; `indexed` maps between values and their positions in a key's options.
- `validate` rejects unknown keys and values outside a key's options.
- `get`, `set` and `del` resolve the alias, index the value and validate before they read or change the parameters.
- The `load`/`popstate` handler rebuilds the parameters from the query and then fills in defaults.
- `url({short: true})` writes each pair under its shortest alias, with its value's position.

The same store is in `src/index.ts` (lines 486-641) and, compiled from an earlier revision, in `index.js` (lines 156-305). The two are logically identical, so one model covers both. The rows of the table below are spread over the two files, so both are cited; each cited range holds the code the member models in that file.

The project has five files:

- `wrappers.dfy`: the `Option` type, which stands for `null`/`undefined`.
- `js.dfy`: the JavaScript built-ins the store relies on:
  - strings as UTF-16 code units, and `String.prototype.length`;
  - code-unit order, the order `URLSearchParams.sort` uses;
  - `parseInt` and `Number.prototype.toString` for integers;
  - the stable `Array.prototype.sort` by length that `aliased` applies.
- `search_params.dfy`: `URLSearchParams` as a sequence of name/value pairs with `get`, `has`, `set`, `delete` and `sort`, and its map view.
- `url_state.dfy`: every `L.state` operation as a function on a `State` value, and the lemmas about them.
- `store.dfy`: the object itself.
  - `class Store` has the three fields the source updates in place.
  - Its methods run the source's `forEach` loops as `while` loops.
  - Each method is proved equal to the `url_state.dfy` function for the same operation.
  - `Configure`, `Refresh` and `ShortUrlPairs` also keep the store's invariant `Valid()` (sorted pairs, both Maps or neither, unique keys).
  - `Set`, `Del` and the loops inside the methods keep the pairs sorted and state what they leave of the Maps.
  - `AliasedReverse` takes no invariant, and keeps `Valid()` when it held: it changes only the configuration, and only by sorting one key's aliases.

A thrown error is an `Err` result:

- a `TypeError` from the unguarded `aliases.get` or `config.forEach` on a null Map;
- `InvalidKey` or `InvalidValue` from `validate`.

The source's quirks are kept:

- `||` truthiness: an empty stored value reads as null, an empty default is never applied, and an empty option or alias falls back to the input.
- The reverse index of a value absent from the options is `"-1"`.
- `parseInt` is lenient, and forward indexing runs before validation. So reloading a store's own long URL can change it: this happens when a stored value is a numeral that names a different, non-empty option of its key (`UrlState.LongReloadReindexes`). Otherwise, for a settled store (sorted, admitted pairs with every non-empty default held) whose configured keys are unique and resolve to themselves, the reload gives the same store back (`UrlState.ReloadLong`).
- `aliased(key, {reverse: true})` sorts the stored alias array in place, as a side effect.

## Model

| member | source | states |
|---|---|---|
| Js.Utf16 | src/index.ts:542 | a string has at least one and at most two UTF-16 code units per character |
| Js.LengthIsCharCount | index.js:207 | `length` lies between the number of characters and twice that, and equals the number of characters exactly when none is above U+FFFF |
| Js.Before | src/index.ts:634 | a name never sorts before itself, and a proper prefix sorts before the longer name |
| Js.CodeUnits | src/index.ts:595 | a character is one UTF-16 code unit below U+10000 and otherwise two; it is two exactly when its first unit is a high surrogate |
| Js.UnitRank | index.js:258 | where a character falls in code-unit order: below the surrogates by value, supplementary characters next, U+E000-U+FFFF last |
| Js.CodeUnitsOrder | index.js:297 | two different characters are ordered by their first differing code unit, which is the order of their ranks |
| Js.BeforeIsCodeUnitOrder | src/index.ts:634 | comparing names character by character is the lexicographic order of their UTF-16 code units, the order `URLSearchParams.sort` uses |
| Js.BeforeIsStrictTotalOrder | src/index.ts:595 | that order is irreflexive, asymmetric, transitive and total on different strings |
| Js.TrimStart | src/index.ts:556 | `parseInt` first drops the leading white space: what remains is a suffix of the input that does not start with white space, and everything dropped is white space |
| Js.ParseInt | index.js:223 | `parseInt` of a string of white space is NaN; a string starting with a digit 1-9 gives a non-negative number |
| Js.ParseIntOfNumeral | src/index.ts:556 | after any leading white space, the numeral of any integer, `-` included, reads as that integer whatever non-digit text follows it (after a lone `0`, text not starting with `x` or `X`) |
| Js.ParseTrimmed | src/index.ts:556 | after the white space, a string that starts with neither a digit nor a sign is NaN; a leading `0x`/`0X` reads the longest hexadecimal prefix after it (NaN if there is none), any other leading digit reads the longest decimal prefix; a negative result needs a leading `-` |
| Js.ParseTrimmedSign | index.js:223 | a leading `-` negates the number read after it, a leading `+` leaves it, and a second sign is NaN |
| Js.DigitPrefix | index.js:223 | the longest prefix of digits of the radix: every character before it is a digit and the next one is not |
| Js.Digits | src/index.ts:554 | the decimal numeral of a natural number is non-empty, all digits, without a leading zero, and denotes the number |
| Js.Decimal | index.js:220 | `toString` of an integer is non-empty and starts with `-` exactly when the integer is negative |
| Js.ParseIntOfDecimal | src/index.ts:554-556 | `parseInt` reads the numeral `toString` writes for an integer back as that integer |
| Js.ParseIntSkipsWhiteSpace | index.js:223 | `parseInt` ignores leading white space |
| Js.ParseIntAfterWhiteSpace | src/index.ts:556 | `parseInt` of white space followed by a string that does not start with white space is `ParseTrimmed` of that string |
| Js.InsertByLength | index.js:207 | inserting by length adds exactly the one element |
| Js.InsertByLengthSorted | src/index.ts:542 | inserting by length into a length-sorted array keeps it length-sorted |
| Js.SortByLength | src/index.ts:542 | `sort((a, b) => a.length - b.length)` is a permutation sorted by code-unit length |
| Js.FirstShortest | index.js:207 | the first element of least length: no element is shorter, and every earlier one is longer |
| Js.SortByLengthHead | src/index.ts:542 | after sorting, element 0 is the first of the shortest elements of the array before sorting |
| Js.OfLengthInsert | index.js:207 | inserting an element of length n into a length-sorted array puts it first among the elements of length n |
| Js.SortByLengthStable | src/index.ts:542 | the sort is stable: the elements of each length keep their relative order |
| Js.SortByLengthIdempotent | index.js:207 | sorting an array that is already sorted by length leaves it unchanged |
| SearchParams.AsMap | src/index.ts:584 | the map view of a list holds its first pair: `get` sees the first value of a name |
| SearchParams.Get | src/index.ts:584 | `get(name)` is the value of the first pair with that name (the map view), or null |
| SearchParams.Has | src/index.ts:605 | `has(name)` holds exactly when some pair carries the name |
| SearchParams.MapEmptyIff | index.js:267 | only the empty list has no names |
| SearchParams.MappedAt | index.js:256 | every name of the map view is carried by a pair, and the first such pair gives its value |
| SearchParams.MemberIffMapped | src/index.ts:594 | with unique names, a pair is in the list exactly when the map view holds it |
| SearchParams.Delete | src/index.ts:606 | `delete(name)` removes every pair with that name and keeps every other pair |
| SearchParams.DeleteKeepsSorted | index.js:268 | deleting from a list sorted by unique names leaves it sorted by unique names |
| SearchParams.Set | src/index.ts:594 | `set(name, value)` maps the name to the value, keeps every pair with another name and removes the other pairs with that name |
| SearchParams.SetKeepsUnique | index.js:257 | setting keeps names unique |
| SearchParams.Insert | index.js:258 | inserting into the sorted tail adds exactly the one pair |
| SearchParams.InsertSorted | src/index.ts:595 | inserting a pair with a new name into a sorted list keeps it sorted |
| SearchParams.Sort | src/index.ts:595 | `sort()` is a permutation; on unique names the result is sorted by name in code-unit order and has the same map view |
| SearchParams.OfName | index.js:258 | the pairs of one name are exactly the list's pairs with that name |
| SearchParams.OfNameInsert | src/index.ts:595 | inserting a pair puts it first among the pairs of its name and leaves the pairs of other names as they were |
| SearchParams.SortStable | index.js:297 | `sort()` is stable: the pairs of each name keep their relative order, when names repeat too |
| SearchParams.SortMembers | index.js:297 | sorting keeps exactly the pairs it was given |
| SearchParams.SortedUniqueExtensional | src/index.ts:634 | two sorted lists with unique names and the same map view are equal |
| SearchParams.SortSorted | index.js:258 | sorting a list that is already sorted changes nothing |
| SearchParams.SetThenSort | src/index.ts:594-595 | `set` and then `sort` on unique names leaves a sorted list that maps the name to the value, every other name as before |
| UrlState.Lookup | src/index.ts:502 | `config.get(key)` finds an entry exactly when the key is configured, and the entry is stored under it |
| UrlState.LookupUnique | index.js:172 | in a Map with unique keys, `get` returns the entry stored with the key |
| UrlState.Put | src/index.ts:501 | after `config.set(key, e)`, `get(key)` is `e` |
| UrlState.PutKeys | index.js:172 | `config.set` keeps a configured key in place and appends a new one |
| UrlState.PutOther | src/index.ts:501-504 | `config.set(key, e)` leaves every other key's entry unchanged |
| UrlState.PutOthers | index.js:172 | the same for all other keys at once |
| UrlState.Merge | src/index.ts:501-504 | the spread `{...stored, ...given}`: a given property wins, a missing one keeps the stored one, and with nothing stored the entry is the given one |
| UrlState.ConfigureEntry | index.js:171-173 | one step of the loop stores the merge of the old and given entry under the key |
| UrlState.ConfigureEntryOthers | src/index.ts:500-505 | that step leaves every other key's entry alone, maps each of the entry's aliases to the key, keeps every other alias and adds no other |
| UrlState.ConfigureEntryKeys | index.js:172 | that step appends a new key and keeps the place of a configured one |
| UrlState.ConfigureAll | src/index.ts:500-506 | the loop keeps the configured keys in place and in order, and the keys afterwards are exactly the old and the given ones |
| UrlState.Register | src/index.ts:505 | registering a key's aliases maps each of them to the key and leaves every other alias as it was |
| UrlState.Configure | src/index.ts:497-499 | `configure` creates both Maps when absent and leaves the parameters unchanged |
| UrlState.ConfigureMerges | src/index.ts:500-504 | after `configure`, a given key's entry is the shallow merge of its old entry and the given one (a given property replaces the old one, a missing one keeps it); a key not given keeps its entry |
| UrlState.ConfigureRegistersAliases | index.js:169-174 | after `configure`, an alias listed by a given entry maps to the key of the last entry listing it; any other alias keeps its earlier registration or stays unregistered |
| UrlState.ConfigureKeepsUnique | index.js:172 | `configure` keeps each configured key once |
| UrlState.Aliased | src/index.ts:545 | forward `aliased` throws a TypeError before `configure`; otherwise it gives the non-empty key registered for the alias, or the input itself |
| UrlState.ShortestAlias | src/index.ts:538-543 | reverse `aliased` gives the first of the key's shortest aliases, or the key when it has none or that alias is empty |
| UrlState.SortAliases | src/index.ts:540-542 | the in-place sort keeps a configuration present or absent with the same keys in the same order, and changes nothing for a key without aliases |
| UrlState.SortAliasesSorts | index.js:207 | after it, the key's aliases are the same ones, sorted by length |
| UrlState.SortAliasesKeepsKeys | index.js:207 | the in-place sort of a key's aliases keeps the configured keys, their order and their uniqueness |
| UrlState.SortAliasesLookup | src/index.ts:540-542 | after the in-place sort, the key's entry holds its sorted aliases and every other entry is unchanged |
| UrlState.SortAliasesKeepsEntries | index.js:207 | the in-place sort changes no key's default or options, nor which aliases it has |
| UrlState.SortedShortestIsFirst | src/index.ts:542 | in an alias array after the sort, the first of the shortest is the first of the shortest before it |
| UrlState.SortAliasesKeepsShortest | index.js:207 | after the in-place sort of any key's aliases, every key has the same shortest alias |
| UrlState.AliasRoundTrip | src/index.ts:537-547 | when a key's non-empty aliases are registered to it, and the key resolves to itself in case it has no non-empty shortest alias, forward `aliased` of its reverse `aliased` is the key |
| UrlState.OptionsFor | src/index.ts:552 | `indexed` reads the options of the resolved key's entry, or none when there is no configuration or no such entry; it throws exactly when the configuration exists and the alias Map does not |
| UrlState.PickOption | src/index.ts:556 | forward `indexed` changes the value exactly when `parseInt` reads it as the position of a non-empty option different from it, and then gives the option at that position |
| UrlState.Indexed | index.js:215-225 | forward `indexed` throws exactly when the alias Map is missing after `configure`, is the identity without a configuration, and any value it changes becomes a non-empty option of the resolved key; the value is the one `PickOption` chooses from that key's options |
| UrlState.IndexOf | src/index.ts:554 | `indexOf` gives the first position holding the value, or -1 exactly when the value is absent |
| UrlState.IndexedReverse | index.js:219-220 | reverse `indexed` throws exactly when the alias Map is missing after `configure`, and gives the value itself for a key without options |
| UrlState.IndexReverseAbsent | src/index.ts:554 | a value outside the options comes back as `"-1"`, not as itself |
| UrlState.IndexReversePosition | index.js:220 | a value among the options comes back as a numeral; `parseInt` reads it as the value's first position |
| UrlState.IndexRoundTrip | src/index.ts:551-558 | forward `indexed` of the reverse index of a non-empty option gives the option back |
| UrlState.Validate | src/index.ts:561-578 | with no configuration, everything passes; otherwise `validate` throws "invalid key" exactly for an unconfigured key, and "invalid value" only for a string that the key's options do not include |
| UrlState.Get | src/index.ts:581-585 | `get` throws a TypeError before `configure` and "invalid key" exactly for an unconfigured resolved key; otherwise it gives the value stored under the resolved key, null when that value is empty or absent |
| UrlState.Set | index.js:251-262 | `set` throws a TypeError before `configure`; a non-string value changes nothing; on success with unique names the parameters are sorted by unique names or unchanged |
| UrlState.SetResolvesIndexesValidates | src/index.ts:588-599 | `set` fails exactly when validating the resolved key and forward-indexed value fails, with that error; otherwise it returns the indexed value, the parameters map the key to it and keep every other key, and a value already stored changes nothing |
| UrlState.SetIdempotent | src/index.ts:592-596 | repeating a successful `set` returns the same value and changes nothing more |
| UrlState.Del | src/index.ts:602-610 | `del` throws as `get` does; otherwise it reports whether the resolved key was present and removes exactly that key's pairs, keeping the list sorted |
| UrlState.DelTwice | index.js:264-272 | a second `del` of the same key returns false and changes nothing |
| UrlState.LoadPairs | src/index.ts:518-520 | setting each query pair in turn keeps the parameters sorted; before `configure` it can only throw a TypeError |
| UrlState.LoadPairsStops | index.js:185-187 | once setting a pair has thrown, the later pairs are not set |
| UrlState.DefaultStep | src/index.ts:524-527 | the default step keeps the parameters sorted |
| UrlState.ApplyDefaults | index.js:190-195 | the defaults loop keeps the parameters sorted |
| UrlState.ApplyDefaultsStops | src/index.ts:523-528 | once a default has thrown, the later entries are not visited |
| UrlState.Refresh | src/index.ts:517-528 | the handler leaves sorted parameters, and before `configure` it throws a TypeError |
| UrlState.RefreshForgetsParams | src/index.ts:517 | the handler's outcome depends only on the pairs and the configuration, not on the parameters before it |
| UrlState.RefreshTwice | index.js:184-195 | running the handler again on the same pairs gives the same outcome and parameters |
| UrlState.SetKeepsAdmitted | src/index.ts:591-595 | a successful `set` stores only a configured key with a value its options admit |
| UrlState.LoadPairsAdmitted | index.js:185-187 | setting the query pairs stores only admitted pairs |
| UrlState.DefaultStepAdmitted | src/index.ts:525 | applying a default stores only admitted pairs |
| UrlState.DefaultFor | src/index.ts:521-525 | the value a key ends with differs from its loaded value only when the default is non-empty and the loaded value is null or empty; with a non-empty default it is non-empty |
| UrlState.DefaultStepHolds | src/index.ts:524-525 | on a key that resolves to itself, a default step changes no other key; on success the key holds `DefaultFor` of its value before the step: that value when `get` reads it as non-null, the forward-indexed default when the default is non-empty and `get` reads null |
| UrlState.ApplyDefaultsAdmitted | index.js:190-195 | whenever a configuration exists, the defaults loop over any entries stores only admitted pairs, provided the pairs before it were admitted |
| UrlState.ApplyDefaultsHolds | src/index.ts:521-528 | after the defaults loop succeeds on unique keys that resolve to themselves, every key with a non-empty default holds a non-empty value; each visited key holds `DefaultFor` of its value before the loop, and the keys not yet visited keep theirs |
| UrlState.RefreshSettles | index.js:184-195 | after a successful handler, on a configuration whose keys are unique and resolve to themselves, the parameters are sorted and admitted, every non-empty default is held, and each configured key holds the value loaded from the URL when `get` reads it as non-null and its forward-indexed non-empty default otherwise (`DefaultFor` of the loaded value) |
| UrlState.DefaultsKept | src/index.ts:523-528 | when every non-empty default is already held, the defaults loop changes nothing |
| UrlState.StoredKeyResolves | src/index.ts:545 | in such a store, a stored key resolves to itself and `indexed` reads its own options |
| UrlState.StoredResolves | index.js:252-259 | in a settled store, a stored pair whose value names no other option resolves to itself |
| UrlState.ReloadLong | src/index.ts:636 | reloading the long URL of a settled store gives the same parameters back, when no stored value reads as the index of a different option |
| UrlState.Shorten | index.js:293-294 | a pair's short form throws exactly when the alias Map is missing after `configure`; its key is the shortest alias, and without a configuration the pair is unchanged |
| UrlState.ShortList | src/index.ts:629-633 | the short-URL loop fails only when the alias Map is missing after `configure` and there is a pair |
| UrlState.ShortListLastWins | index.js:295 | a later pair overwrites an earlier pair with the same short key: the last pair's short form is in the list, and no other pair under that short key is |
| UrlState.ShortListUnique | src/index.ts:632 | the short list has unique names |
| UrlState.ShortPairs | src/index.ts:627-634 | the short pairs are sorted by unique short key |
| UrlState.SortAliasesKeepsOptions | index.js:294 | the in-place alias sort changes no key's options as `indexed` reads them |
| UrlState.SortAllAliases | index.js:292-294 | the loop's in-place sorts keep a configuration present or absent, with the same keys in the same order |
| UrlState.SortAllAliasesKeeps | src/index.ts:629-631 | the side effect of the loop does not change the loop's own result: every key keeps its options, its shortest alias and its place |
| UrlState.ResolvedSet | src/index.ts:588-599 | setting a pair whose resolved key is not yet stored adds the resolved pair and keeps the list sorted |
| UrlState.LoadResolved | index.js:185-187 | loading pairs that each resolve, to distinct keys, succeeds and stores exactly the resolved pairs, whatever their order |
| UrlState.ShortKeyResolves | src/index.ts:538-545 | in such a store, forward `aliased` of a stored key's short key is the key |
| UrlState.EntryKeyResolves | src/index.ts:538-545 | on a configuration whose keys are unique, non-empty and resolve to themselves, with every non-empty alias registered for its key, forward `aliased` of any configured key's short key is the key |
| UrlState.ShortValueResolves | index.js:218-223 | in such a store, forward `indexed` of a stored value's reverse index is the value |
| UrlState.ShortenResolves | src/index.ts:630-631 | in a settled store whose aliases are coherent, a stored pair's short form resolves back to the pair |
| UrlState.ShortKeysDistinct | index.js:293 | in such a store, pairs with different keys have different short keys |
| UrlState.ShortListMembers | src/index.ts:632 | when short keys are distinct, the short list holds exactly the short form of each pair |
| UrlState.ShortFormsResolve | index.js:292-296 | every stored pair of such a store has a short form that resolves back to it, and the short keys are distinct |
| UrlState.SortedShortForms | src/index.ts:634 | the sorted short list has unique names and holds exactly the pairs' short forms |
| UrlState.ShortFormsResolveDistinct | index.js:293-295 | those short forms resolve to distinct keys, and exactly to the stored pairs |
| UrlState.ShortPairsLoad | src/index.ts:517-520 | loading the sorted short forms gives back the sorted pairs |
| UrlState.ReloadShort | src/index.ts:624-640 | reloading the short URL of a settled, alias-coherent store, whose values of keys with options are non-empty, gives back the same parameters |
| UrlState.NumeralOptionIsIndex | src/index.ts:556 | with options `["x", "2", "y"]`, `set(k, "2")` stores and returns `"y"`, because the numeral is read as position 2 first |
| UrlState.NumeralStoreSettled | index.js:223 | a store holding that option `"2"` is nevertheless settled, and its configuration coherent |
| UrlState.LongReloadReindexes | src/index.ts:590 | so reloading that store's own long URL stores `"y"`, not `"2"` |
| StateStore.Store.constructor | src/index.ts:486-490 | the store starts with no pairs and both Maps null |
| StateStore.Store.Configure | src/index.ts:497-508 | the method takes the store to the state `configure` gives, keeping the invariant (sorted pairs, both Maps or neither, unique keys) |
| StateStore.Store.ConfigureEntries | index.js:169-174 | the loop over the given entries leaves the Maps that merging each entry and registering its aliases in turn gives |
| StateStore.Store.RegisterAliases | src/index.ts:505 | the inner loop maps each alias to the key, later names winning |
| StateStore.Store.AliasedReverse | src/index.ts:538-543 | the method returns the key's shortest alias, taken before the sort, leaves the key's aliases sorted in place, and keeps the invariant `Valid()` |
| StateStore.Store.Set | src/index.ts:588-599 | the method returns what `set` returns or throws what it throws; on success it stores what `set` stores, and on an error nothing changes |
| StateStore.Store.Del | src/index.ts:602-610 | the method returns what `del` returns or throws what it throws; on success it removes what `del` removes, and on an error nothing changes |
| StateStore.Store.Refresh | src/index.ts:514-528 | the handler leaves the outcome and parameters of `Refresh`, keeps the invariant, and on a coherent configuration leaves the store settled |
| StateStore.Store.SetPairs | src/index.ts:518-520 | the query loop leaves the outcome and parameters of `LoadPairs`, ending at the first error |
| StateStore.Store.SetPairAt | src/index.ts:519 | one turn of that loop sets the next pair, as `LoadPairs` does for one more pair |
| StateStore.Store.SetDefaults | index.js:190-195 | the defaults loop leaves the outcome and parameters of `ApplyDefaults`, ending at the first error |
| StateStore.Store.SetDefault | src/index.ts:524-527 | one round of the defaults loop gives what the default step gives |
| StateStore.Store.ShortUrlPairs | src/index.ts:627-634 | the method returns the sorted short pairs computed from the store before the call, and leaves every stored key's aliases sorted; for a settled, alias-coherent store those pairs reload to the same parameters |
| StateStore.Store.ShortenPairs | index.js:292-296 | the short-URL loop builds the short list of the stored pairs, sorting each key's aliases in place as it goes |
| StateStore.Store.ShortenAt | src/index.ts:630-632 | one turn of that loop adds the next pair's short form and sorts that key's aliases |

## Left out

- `L()`, `L.on`/`off`/`one`, and the other DOM, attribute, class, style, animation, cycling, random and clipboard helpers: they wrap browser APIs and hold no state of the store.
- `write`: `history.pushState`/`replaceState` and building the href from `window.location` are browser I/O. The parameters it serializes are the `params` field.
- `url()` without `short`: it serializes `params` itself; the short branch is `ShortPairs` and `StateStore.Store.ShortUrlPairs`.
- Percent-encoding, and the parsing of the query string by `URLSearchParams`: the load handler is given the decoded pairs, in query order.
- Registering the handler on `load`/`popstate`, and the `onLoad` callback: `Refresh` is the handler's body.
- The unused local `changed` in the load handler.
- An error thrown inside the event handler stops the handler with the parameters set so far. `Refresh` returns those parameters with the error; what the browser does with an uncaught error is not part of this model.
- Object property order: `Object.entries(config)` is taken to visit the entries in the order they are given.
- A property set explicitly to `undefined` in a `configure` entry overrides the stored one in the spread. The model treats it as an absent property.
- The alias arrays are values here. The source stores the caller's own arrays, so the in-place sort is visible to the caller and to every entry sharing the array; that aliasing is not modelled.
- `parseInt` gives an exact integer. Rounding to a double begins beyond 2^53, far past any array position, and `-0` indexes an array exactly as `0` does.
- Configuration values that are not strings or arrays of strings (the TypeScript type admits only those).
- StateStore.Store.ShortUrlPairs: its reload guarantee is stated for the store as it was before the call. The alias sort it performs is proved to leave the short pairs unchanged, but a reload from the state after the call is not separately proved.
