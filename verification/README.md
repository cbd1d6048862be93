# Content security policy builder, modelled in Dafny

The PHP class `ContentSecurityPolicy` builds the value of a `Content-Security-Policy` HTTP
header. A policy holds two things:

- an ordered map from fetch-directive names (`default-src`, `script-src`, …) to source lists;
- two flags, `auto-self` (default on) and `report-only` (default off).

The constructor normalises what the caller passes:

- only the thirteen known directive names are kept;
- `default-src` is always stored, and stored first;
- every list starts from a seed (`'self'` under auto-self, nothing otherwise) followed by the caller's values, each once, in first-seen order;
- a string value is split on single spaces.

A policy is never changed in place. `addItemToSrc`, `removeItemToSrc`, `addListToSrc`,
`removeListToSrc`, `addUnsafeInline`, `removeUnsafeInline`, `addMap` and `removeMap` each
compute new settings and run the constructor on them again. The header is the header name,
`": "`, then `name src1 src2 …` for every directive with a non-empty list, joined by `"; "`.

The model is a set of pure functions over immutable values:

| module | file | what it holds |
|---|---|---|
| `Optional` | optional.dfy | `Option` |
| `SourceList` | source_list.dfy | the duplicate-free source list (`add`, `remove`, `addList`, `removeList`) and its algebra |
| `Text` | text.dfy | PHP `explode` (empty pieces kept) and `implode`, with both round trips |
| `SettingsMap` | settings_map.dfy | the settings as an association list with PHP array order (a write replaces in place or appends) |
| `ContentSecurityPolicy` | policy.dfy | the constants, `Flags`, `SourceInput`, `Policy`, the constructor `New` and its invariant `Valid` |
| `Derivations` | derivations.dfy | `changeItemToSrc`, `changeMap` and the eight public derivations |
| `Header` | header.dfy | the header functions, `getString`, and a parser that reads a header back |
| `Scenarios` | scenarios.dfy | sequences of derivations, and policies from the class's test cases |

The derivations are stated without the constructor. A derivation of a valid policy on a known
directive `d` is ONE write to the settings:

- the write replaces `d`'s list in place, or appends `d` at the end;
- the new list is the operation applied to the list in effect, `Current(p, d)`. That is the stored list, or the seed when `d` is not stored yet;
- under auto-self, `'self'` cannot be removed.

The `Rebuild` lemma proves that running the constructor on existing settings keeps every name and its
position. Under auto-self it only moves `'self'` to the front of a list.

## Model

| member | source | states |
|---|---|---|
| `ContentSecurityPolicy.KnownKeys` | src/ContentSecurityPolicy.php:18-20 | a key survives exactly when it is a key of the arguments and one of the known directive names |
| `ContentSecurityPolicy.Assigned` | src/ContentSecurityPolicy.php:18-22 | a PHP array built from the pairs holds a value for a key exactly when the key occurs, and that value is the one paired with the key's last occurrence |
| `ContentSecurityPolicy.ValidNames` | src/ContentSecurityPolicy.php:20 | a valid policy stores known directive names only |
| `ContentSecurityPolicy.Assign` | src/ContentSecurityPolicy.php:18-38 | the loop appends the known keys in first-seen order after what is stored; each key holds the seed merged with its last value; every other list is unchanged; stored entries stay well formed |
| `ContentSecurityPolicy.MergeOk` | src/ContentSecurityPolicy.php:35 | a merged list has no duplicates and, under auto-self, starts with `'self'` |
| `ContentSecurityPolicy.MergeShape` | src/ContentSecurityPolicy.php:35 | a merged list is the seed, then the values not in the seed, each once, in the order they first occur; it holds exactly the seed and the values |
| `ContentSecurityPolicy.New` | src/ContentSecurityPolicy.php:11-39 | the constructor gives a valid policy with the given flags: `default-src` first, then the known keys in first-seen order, each with the seed merged with its last value, `default-src` keeping the bare seed when not given |
| `ContentSecurityPolicy.MergeDistinct` | src/ContentSecurityPolicy.php:35 | merging a duplicate-free list into the seed only moves `'self'` to the front (under auto-self) |
| `ContentSecurityPolicy.ReseedFixed` | src/ContentSecurityPolicy.php:35 | a list already in stored shape comes out of the merge unchanged |
| `ContentSecurityPolicy.AsArgs` | src/ContentSecurityPolicy.php:155 | the settings handed back to the constructor have the stored names as keys, in order |
| `ContentSecurityPolicy.AsArgsKnown` | src/ContentSecurityPolicy.php:155 | when every stored name is known, the constructor keeps every key handed back |
| `ContentSecurityPolicy.AsArgsAssigned` | src/ContentSecurityPolicy.php:155 | with unique names, each stored list is handed back exactly once, as a source list |
| `ContentSecurityPolicy.Rebuild` | src/ContentSecurityPolicy.php:155 | running the constructor on well-formed settings keeps the names and their order, and only moves `'self'` to the front of each list |
| `SourceList.Add` | src/ContentSecurityPolicy.php:83-86 | `add` keeps the old list as a prefix, grows by one exactly when the item is new, holds the old items and the item, and keeps the list duplicate-free |
| `SourceList.AddList` | src/ContentSecurityPolicy.php:93-96 | `addList` keeps the old list as a prefix, holds the old items and the new ones, and keeps the list duplicate-free |
| `SourceList.AddListAppendsInOrder` | src/ContentSecurityPolicy.php:35 | what `addList` appends holds only new items, each once, in first-seen order |
| `SourceList.Remove` | src/ContentSecurityPolicy.php:88-91 | `remove` holds exactly the other items, in their old order, and changes nothing when the item is absent |
| `SourceList.RemoveList` | src/ContentSecurityPolicy.php:98-101 | `removeList` holds exactly the items not listed, in their old order, and changes nothing when none is present |
| `SourceList.RemoveListStep` | src/ContentSecurityPolicy.php:98-101 | `removeList` of `[x] + xs` is `remove(x)` followed by `removeList(xs)` |
| `SourceList.AddIdempotent` | src/ContentSecurityPolicy.php:83-86 | adding an item twice is adding it once |
| `SourceList.AddThenRemove` | src/ContentSecurityPolicy.php:83-91 | adding an absent item and removing it again gives back the list |
| `SourceList.RemoveAfterAdd` | src/ContentSecurityPolicy.php:83-91 | removing an item after adding it is just removing it |
| `SourceList.AddListIdempotent` | src/ContentSecurityPolicy.php:93-96 | adding the same list twice is adding it once |
| `SourceList.AddListConcat` | src/ContentSecurityPolicy.php:35 | adding a concatenation is adding one part after the other |
| `SourceList.AddListPresent` | src/ContentSecurityPolicy.php:35 | adding items that are all present changes nothing |
| `SourceList.AddListFresh` | src/ContentSecurityPolicy.php:35 | adding duplicate-free items that are all absent appends them as given |
| `SourceList.AddListRemove` | src/ContentSecurityPolicy.php:108-116 | removing an item after adding a list is adding the list without the item to the list without the item |
| `SourceList.AddListHead` | src/ContentSecurityPolicy.php:108-116 | adding a list keeps the first item in front and adds the remaining items behind it |
| `SourceList.RemoveListAgree` | src/ContentSecurityPolicy.php:126-129 | `removeList` depends only on which present items are listed |
| `Text.Explode` | src/ContentSecurityPolicy.php:28 | `explode(' ', s)` gives at least one piece and no piece holds the separator |
| `Text.ImplodeExplode` | src/ContentSecurityPolicy.php:28 | joining the pieces of `explode` with the separator gives back the string |
| `Text.ExplodeImplode` | src/ContentSecurityPolicy.php:80 | splitting a join of separator-free parts gives back the parts |
| `SettingsMap.Names` | src/ContentSecurityPolicy.php:61 | the stored names, one per entry, in storage order |
| `SettingsMap.Lookup` | src/ContentSecurityPolicy.php:80 | a lookup succeeds exactly when the name is stored, and yields a stored entry |
| `SettingsMap.Put` | src/ContentSecurityPolicy.php:154 | `$settings[k] = v` replaces `k` in place or appends it; `k` then holds `v` and every other name keeps its list |
| `SettingsMap.Extensionality` | src/ContentSecurityPolicy.php:61 | settings with the same unique names and the same lists are equal |
| `SettingsMap.PutTwice` | src/ContentSecurityPolicy.php:154 | writing a key twice leaves only the second value |
| `SettingsMap.PutStored` | src/ContentSecurityPolicy.php:154 | writing back the list a key already holds changes nothing |
| `SettingsMap.LookupEntry` | src/ContentSecurityPolicy.php:73 | with unique names, every stored entry is what its name looks up |
| `Derivations.EffectStored` | src/ContentSecurityPolicy.php:154-155 | under auto-self, a change to a stored list and the constructor's merge give the change with `'self'` kept in front |
| `Derivations.EffectFresh` | src/ContentSecurityPolicy.php:150-155 | under auto-self, a change to a directive not yet stored (an empty list) and the merge give the change applied to the seed |
| `Derivations.EffectReseed` | src/ContentSecurityPolicy.php:149-155 | the list `changeItemToSrc` hands to the constructor has no duplicates and comes out as the change applied to the list in effect |
| `Derivations.RebuildAfterPut` | src/ContentSecurityPolicy.php:149-155 | the constructor run on a valid policy's settings after one write gives the write with the merged list, and nothing else |
| `Derivations.ChangeItemToSrc` | src/ContentSecurityPolicy.php:144-158 | an unknown directive returns the same policy; for a known one, the result is valid, keeps the flags, and is one write of the changed list in effect |
| `Derivations.AddItemToSrc` | src/ContentSecurityPolicy.php:83-86 | for a known directive, the result is the policy with `x` added to the list in effect (the seed if the directive was not stored); an unknown directive changes nothing |
| `Derivations.RemoveItemToSrc` | src/ContentSecurityPolicy.php:88-91 | for a known directive, `x` is removed from the list in effect, except `'self'` under auto-self, which stays; an unknown directive changes nothing |
| `Derivations.AddListToSrc` | src/ContentSecurityPolicy.php:93-96 | for a known directive, the items are added to the list in effect in first-seen order; an unknown directive changes nothing |
| `Derivations.RemoveListToSrc` | src/ContentSecurityPolicy.php:98-101 | for a known directive, the listed items are removed from the list in effect, `'self'` excepted under auto-self; an unknown directive changes nothing |
| `Derivations.AddUnsafeInline` | src/ContentSecurityPolicy.php:134-137 | for a known directive, `'unsafe-inline'` is added to the list in effect and is then stored under the directive |
| `Derivations.RemoveUnsafeInline` | src/ContentSecurityPolicy.php:139-142 | for a known directive, `'unsafe-inline'` is removed from the list in effect and is then not stored under the directive |
| `Derivations.AddThenRemoveItem` | src/ContentSecurityPolicy.php:83-91 | adding an item that a stored directive lacks and removing it again gives back the same policy |
| `Derivations.UnsafeInlineRoundTrip` | src/ContentSecurityPolicy.php:134-142 | `addUnsafeInline` then `removeUnsafeInline` on a stored directive without `'unsafe-inline'` gives back the same policy |
| `Derivations.AddThenRemoveFresh` | src/ContentSecurityPolicy.php:147-155 | on a known directive that is not stored, adding an item and removing it again leaves the directive stored with the bare seed (`'self'` under auto-self, nothing otherwise), and changes nothing else |
| `Derivations.AddItemTwice` | src/ContentSecurityPolicy.php:83-86 | adding the same item twice gives the same policy as adding it once |
| `Derivations.RemoveSelfKept` | src/ContentSecurityPolicy.php:88-91 | under auto-self, removing `'self'` from a stored directive gives back the same policy |
| `Derivations.Touch` | src/ContentSecurityPolicy.php:162-173 | the loop of `changeMap` appends the known keys of the map in first-seen order; each gets the function of its stored list (empty if absent) and its value, and every other list is unchanged |
| `Derivations.ChangeMap` | src/ContentSecurityPolicy.php:160-177 | `changeMap` gives a valid policy whose `auto-self` is the forced value and whose `report-only` is unchanged |
| `Derivations.RebuildTouched` | src/ContentSecurityPolicy.php:174-176 | the constructor run on the touched settings keeps their names and only merges each list |
| `Derivations.AddAllReseed` | src/ContentSecurityPolicy.php:108-117 | `addList`, then `add('self')` under auto-self, then the merge, is adding the items to the list in effect |
| `Derivations.AddMap` | src/ContentSecurityPolicy.php:103-119 | `addMap` keeps the flags, appends the map's known keys that are not stored yet, and adds each known key's items to its list in effect; unknown keys and other directives are unchanged |
| `Derivations.RemoveMap` | src/ContentSecurityPolicy.php:121-132 | `removeMap` switches `auto-self` off and keeps `report-only`; it removes each known key's items (`'self'` included) from its stored list (empty if absent); unknown keys and other directives are unchanged |
| `Header.HeaderName` | src/ContentSecurityPolicy.php:51-56 | the header name starts with `Content-Security-Policy`, and differs from it (the Report-Only variant) exactly when report-only is set |
| `Header.HeaderLine` | src/ContentSecurityPolicy.php:71-76 | the line is empty exactly when the list is; otherwise splitting it on spaces gives the name, then the sources |
| `Header.NonEmpty` | src/ContentSecurityPolicy.php:63 | the entries kept are exactly the stored ones with a non-empty list |
| `Header.Lines` | src/ContentSecurityPolicy.php:58-67 | the loop yields, in storage order, the line of each entry with a non-empty list |
| `Header.AllHeaderLines` | src/ContentSecurityPolicy.php:58-69 | the lines of the directives with non-empty lists, in storage order, joined by `"; "` |
| `Header.HeaderString` | src/ContentSecurityPolicy.php:46-49 | the header of a valid policy with plain sources parses back to its report-only flag and its non-empty directives, in order |
| `Header.GetString` | src/ContentSecurityPolicy.php:78-81 | an unstored directive or an empty list reads as ""; otherwise splitting the string on spaces gives back the stored list |
| `Header.UnknownReadsEmpty` | src/ContentSecurityPolicy.php:78-81 | in a valid policy an unknown directive reads as "" |
| `Header.ImplodeSemicolon` | src/ContentSecurityPolicy.php:68 | joining on `"; "` is joining on `";"` after a space is put in front of every line but the first |
| `Header.LineRoundTrip` | src/ContentSecurityPolicy.php:74 | the line of an entry with a known name and plain sources parses back to the entry and holds no semicolon |
| `Header.ParseLinesRender` | src/ContentSecurityPolicy.php:58-69 | the joined lines of known-name entries with plain sources parse back to the entries |
| `Header.HeaderRoundTrip` | src/ContentSecurityPolicy.php:46-69 | name, `": "` and lines of a valid policy with plain sources parse back to the flag and the non-empty directives |
| `Scenarios.RunValid` | src/ContentSecurityPolicy.php:144-177 | every policy reached from a valid one by any sequence of derivations is valid |
| `Scenarios.RunFlags` | src/ContentSecurityPolicy.php:160-177 | along any sequence of derivations report-only never changes, and auto-self survives exactly when it was on and `removeMap` is never called |
| `Scenarios.UnknownNeverStored` | src/ContentSecurityPolicy.php:18-38 | from any constructed policy, after any derivations, an unknown directive is not stored and reads as "" |
| `Scenarios.AddThenRemoveFreshReads` | src/ContentSecurityPolicy.php:78-81 | with auto-self off, adding and removing an item on a known directive that is not stored still reads back as "" |
| `Scenarios.DefaultPolicy` | tests/ContentSecurityPolicyTest.php:8-12 | a policy constructed with no arguments stores only `default-src`, holding `'self'` |
| `Scenarios.ConstructedFromTestArgs` | tests/ContentSecurityPolicyTest.php:14-20 | the test arguments give `default-src` and `script-src`, each `'self' https://www.google.com`; `style-src` reads as "" |
| `Scenarios.UnsafeInlineOnTestPolicy` | tests/ContentSecurityPolicyTest.php:22-30 | `addUnsafeInline('script-src')` appends `'unsafe-inline'` to `script-src` only, and `removeUnsafeInline` restores the policy |
| `Scenarios.UnsafeInlineOnUnstoredDirective` | src/ContentSecurityPolicy.php:150-155 | on the test policy, `addUnsafeInline('style-src')` then `removeUnsafeInline('style-src')` turns `getString('style-src')` from "" into `'self'` |
| `Scenarios.HeaderOfTestPolicy` | tests/ContentSecurityPolicyTest.php:60-64 | the test policy's header is `Content-Security-Policy: default-src 'self' https://www.google.com; script-src 'self' https://www.google.com` |

## Left out

- `submit()` (lines 41-44) sends the header through PHP's `header()`. That is I/O, and `HeaderString` models the text it sends.
- The collaborators `UniqueValuesArray` and `VerifiedArgumentsSameType` are not part of this model. The first is modelled by its observable behaviour: append if absent, drop if present, keep the order (`SourceList`). The second is modelled as a record of two booleans (`Flags`). Its type checking of the other arguments is not modelled.
- The runtime sniffing of a constructor value (line 26, `gettype`, and line 30, `is_a`) becomes the `SourceInput` datatype. Values of any other type (integers, nested arrays) are not modelled.
- The `assert` at line 146 checks that the change argument has the expected type. The `Change` datatype makes that hold by construction.
- PHP array keys are strings here. Integer keys and the loose comparison of `in_array` (line 20 and line 147) are not modelled.
- Derivations.AddThenRemoveItem: the round trip gives back the policy only for a directive that is already stored. For a known directive that is not stored, lines 150-152 store it first, so the round trip leaves it stored with the seed. Under auto-self the seed is `'self'`, and `getString` changes from "" to `'self'` (`Derivations.AddThenRemoveFresh`, `Scenarios.UnsafeInlineOnUnstoredDirective`).
- Derivations.UnsafeInlineRoundTrip: the same restriction to a stored directive applies, for the same reason.
- Derivations.AddMap: the per-directive result is stated only for maps with unique keys. A PHP array cannot hold a key twice.
- Derivations.RemoveMap: the per-directive result is stated only for maps with unique keys, for the same reason.
- Derivations.ChangeItemToSrc: the exact result is stated for valid policies only.
- Derivations.AddItemToSrc: the exact result is stated for valid policies only.
- Derivations.RemoveItemToSrc: the exact result is stated for valid policies only.
- Derivations.AddListToSrc: the exact result is stated for valid policies only.
- Derivations.RemoveListToSrc: the exact result is stated for valid policies only.
- Derivations.AddUnsafeInline: the exact result is stated for valid policies only.
- Derivations.RemoveUnsafeInline: the exact result is stated for valid policies only.
- Every policy the constructor builds is valid (`ContentSecurityPolicy.New`), and so is every policy derived from one (`Scenarios.RunValid`). So the condition above holds for every policy PHP code can reach.
- The values of `addMap`/`removeMap` maps are arrays of strings, as the closures' `array` type hint requires. A string value would raise a type error in PHP and is not modelled.
- `HEADER_NAME` (line 179) is never used by the class and has no counterpart here.
- Directive names and sources are not checked against CSP syntax, and the class does not check them either.
- Header.HeaderString: the round trip is stated only for valid policies whose sources hold no space and no semicolon. Other sources cannot be read back from the text.
- Header.GetString: the round trip is stated only for sources without spaces, for the same reason.
- Header.HeaderLine: the round trip is stated only for sources without spaces. It also requires the directive to be stored: in PHP, `getHeaderLine` on an unstored name reads a missing array element, and the class only calls it on stored names.
- The test `testDefault` (tests/ContentSecurityPolicyTest.php:8-12) expects `default-src` of a default policy to read as "". The code stores `'self'` there under the default auto-self (line 16-17). The model follows the code (`Scenarios.DefaultPolicy`).
- The tests `testAddAndRemove`, `testAddAndRemoveMap` and `testInvalidSrcType` are covered by the general contracts of the derivations. They are not restated as concrete lemmas.
- Lines 22 and 35 assign the same key twice in one iteration. The model performs a single write, which leaves the same key at the same position with the same final list.
