# Path-alias index over a hash-of-hashes store

A Dafny model of `Redis_Path_PhpRedis` (`lib/Redis/Path/PhpRedis.php`). This
is the path-alias index of the Redis integration module. For each language it
keeps two hashes in the remote store:

- the ALIAS hash maps a source to the aliases saved for it;
- the SOURCE hash maps an alias to the sources saved for it.

Each field holds a small ordered set, encoded as its elements joined with `#`.

The model has six modules:

- `Php` (php.dfy): the PHP behaviours the code relies on. These are string
  truthiness (missing, `""` and `"0"` are falsy), `array_search` (first
  matching position), `unset` on a list, and "no duplicates".
- `Encoding` (encoding.dfy): `explode`/`implode` on `#` as `Split`/`Join`.
  Both round trips are proved: `Split(Join(xs)) == xs` for a non-empty list of
  separator-free elements, and `Join(Split(s)) == s` for every string.
- `HashStore` (hash_store.dfy): the store as `map<Key, map<string, string>>`.
  The client class `Client` has the primitives `hget`, `hset`, `hdel` and
  `del`. `getKey(purpose, language)` is the datatype constructor `Key`, which
  is injective by construction.
- `RedisPath` (redis_path.dfy): the index itself.
  - The class `PhpRedis` has the methods `SaveInHash`, `SaveAlias`,
    `DeleteInHash`, `DeleteAlias` and `DeleteLanguage`. They do the source's
    read-modify-write on the injected client.
  - Each method is proved to leave the store given by a specification
    function (`SaveInHashState`, ...).
  - The lookups `LookupInHash`, `LookupAlias` and `LookupSource` are functions
    of the store content, so they cannot change it.
- `RedisPathProperties` (properties.dfy): what the operations promise.
  - Saving is a deduplicating set-add and is idempotent.
  - Deleting, as written, is a set-remove that ignores a match at position 0.
  - Lookups answer with the first element and fall back to `LANGUAGE_NONE`.
  - Saving into an empty store round-trips through both lookups.
  - Every store-changing operation (`saveInHash`, `saveAlias`, `deleteInHash`,
    `deleteAlias`, `deleteLanguage`, and the corrected deletes) keeps the
    stored sets well formed: duplicate-free, made of elements.
  - Calling `saveAlias` twice with the same arguments is the same as once.
  - Saving keeps the two directions symmetric.
- `RedisPathFindings` (findings.dfy): what the position-0 test in
  `deleteInHash` does. It also holds the separately labelled corrected variant.

The main model follows the code as written, including the position-0
behaviour of `deleteInHash`. The code is at odds with itself here. Line 49
uses the position `array_search` returns as a condition, so a match at
position 0 counts as "not found". Yet line 50 has a branch for a set of one
element, and a one-element set can only match at position 0. That branch
can run only if position 0 counts as found, and then it removes the field.
As written, it can never run.

The members `DeleteInHashCorrectedState`, `DeleteAliasCorrectedState`,
`PhpRedis.DeleteInHashCorrected` and `PhpRedis.DeleteAliasCorrected` are the
corrected variant. They accept position 0. Their intended properties are
proved beside the as-written ones.

Elements are compared with strict equality. An element the encoding can hold
faithfully (`Element`) is truthy for PHP and contains no `#`. The lemmas that
need it take this as a precondition. The operations themselves handle every
string as PHP does: an empty, `"0"` or `#`-bearing value is modelled exactly.

The language "no language" is the host system's `LANGUAGE_NONE` constant,
modelled as `"und"`. A missing (null) language is `None`.

## Model

| member | source | states |
|---|---|---|
| Php.ArraySearch | lib/Redis/Path/PhpRedis.php:49 | nothing is found exactly when the element is absent; otherwise the answer is the first position holding it |
| Php.Truthy | lib/Redis/Path/PhpRedis.php:14-25 | PHP truthiness of `if ($value)`, `!empty($value)` (and `!$ret` at line 89): missing, `""` and `"0"` are falsy; a definition without contract of its own, pinned down by `PiecesTruthy` and `WellFormedMembers` |
| Php.Unset | lib/Redis/Path/PhpRedis.php:53-54 | removing one position leaves one element fewer, and the survivors keep their order |
| Php.UnsetKeepsNoDuplicates | lib/Redis/Path/PhpRedis.php:53 | removing a position from a duplicate-free list keeps it duplicate-free |
| Php.UnsetMembership | lib/Redis/Path/PhpRedis.php:53 | in a duplicate-free list, removing the position of `x` removes exactly `x` |
| Encoding.Split | lib/Redis/Path/PhpRedis.php:15 | `explode` gives at least one piece, and no piece contains the separator |
| Encoding.Join | lib/Redis/Path/PhpRedis.php:54 | `implode` of a list starts with its first piece, followed by `#` when more pieces come; `SplitJoin` and `JoinSplit` prove it inverse to `explode` |
| Encoding.SplitPlain | lib/Redis/Path/PhpRedis.php:22 | a separator-free value is a one-element set |
| Encoding.SplitAround | lib/Redis/Path/PhpRedis.php:17 | appending `#` and an element appends the element's pieces to the set |
| Encoding.SplitJoin | lib/Redis/Path/PhpRedis.php:54 | reading back an encoded non-empty list of separator-free elements gives the list |
| Encoding.JoinSplit | lib/Redis/Path/PhpRedis.php:48-54 | re-encoding the pieces of any value gives the value |
| HashStore.GetKey | lib/Redis/Path/PhpRedis.php:37-38 | the key determines both its purpose and its language (injective) |
| HashStore.Get | lib/Redis/Path/PhpRedis.php:12 | what `hget` answers (lines 12, 45, 88, 90): the field's value, or nothing when key or field is missing; a definition without contract, pinned down by the ensures of `Put`, `Erase` and `Drop` |
| HashStore.Put | lib/Redis/Path/PhpRedis.php:26 | `hset` gives the field the value and leaves every other field as it was |
| HashStore.Erase | lib/Redis/Path/PhpRedis.php:51 | `hdel` removes the field and leaves every other field as it was |
| HashStore.Drop | lib/Redis/Path/PhpRedis.php:73-74 | `del` removes every field of the key and leaves every other key as it was |
| HashStore.Client.HSet | lib/Redis/Path/PhpRedis.php:26 | the client's store becomes the one with the field set |
| HashStore.Client.HDel | lib/Redis/Path/PhpRedis.php:51 | the client's store becomes the one with the field removed |
| HashStore.Client.Del | lib/Redis/Path/PhpRedis.php:73-74 | the client's store becomes the one with the key removed |
| HashStore.Client.HGet | lib/Redis/Path/PhpRedis.php:45 | `hget` on the client reads `Get` of its store and changes nothing (a function); no contract of its own |
| RedisPath.SaveInHashState | lib/Redis/Path/PhpRedis.php:8-29 | saving into `(key, hkey)` changes no other field of the store |
| RedisPath.Normalize | lib/Redis/Path/PhpRedis.php:33-35 | a null language becomes `LANGUAGE_NONE` (also lines 62-64 and 81-82); no contract of its own, pinned down by `SaveAliasWithoutLanguage` |
| RedisPath.SaveAliasState | lib/Redis/Path/PhpRedis.php:31-39 | `saveAlias` changes only the source's field in the ALIAS hash and the alias's field in the SOURCE hash of the normalised language |
| RedisPath.DeleteInHashState | lib/Redis/Path/PhpRedis.php:41-58 | deleting as written changes no other field, and never makes a present field absent (no `hdel` happens) |
| RedisPath.DeleteAliasState | lib/Redis/Path/PhpRedis.php:60-68 | `deleteAlias` changes only the two fields of the normalised language |
| RedisPath.DeleteInHashCorrectedState | lib/Redis/Path/PhpRedis.php:41-58 | the corrected delete changes no field other than `(key, hkey)` |
| RedisPath.DeleteAliasCorrectedState | lib/Redis/Path/PhpRedis.php:60-68 | the corrected `deleteAlias` changes only the two fields of the normalised language |
| RedisPath.DeleteLanguageState | lib/Redis/Path/PhpRedis.php:70-75 | both hashes of the language are gone entirely; every key of another language is unchanged |
| RedisPath.LookupInHash | lib/Redis/Path/PhpRedis.php:77-96 | the answer is a single element and never contains the separator |
| RedisPath.LookupAlias | lib/Redis/Path/PhpRedis.php:98-101 | the answer is a single alias and never contains the separator |
| RedisPath.LookupSource | lib/Redis/Path/PhpRedis.php:103-106 | the answer is a single source and never contains the separator |
| RedisPath.PhpRedis.SaveInHash | lib/Redis/Path/PhpRedis.php:8-29 | the read-modify-write leaves exactly the store `SaveInHashState` describes |
| RedisPath.PhpRedis.SaveAlias | lib/Redis/Path/PhpRedis.php:31-39 | the two saves leave exactly the store `SaveAliasState` describes |
| RedisPath.PhpRedis.DeleteInHash | lib/Redis/Path/PhpRedis.php:41-58 | the read-modify-write leaves exactly the store `DeleteInHashState` describes; the `hdel` branch is proved dead |
| RedisPath.PhpRedis.DeleteAlias | lib/Redis/Path/PhpRedis.php:60-68 | the two deletes leave exactly the store `DeleteAliasState` describes |
| RedisPath.PhpRedis.DeleteInHashCorrected | lib/Redis/Path/PhpRedis.php:41-58 | the corrected read-modify-write leaves exactly the store `DeleteInHashCorrectedState` describes |
| RedisPath.PhpRedis.DeleteAliasCorrected | lib/Redis/Path/PhpRedis.php:60-68 | the corrected deletes leave exactly the store `DeleteAliasCorrectedState` describes |
| RedisPath.PhpRedis.DeleteLanguage | lib/Redis/Path/PhpRedis.php:70-75 | the two `del` calls leave exactly the store `DeleteLanguageState` describes |
| RedisPathProperties.PiecesTruthy | lib/Redis/Path/PhpRedis.php:25 | a value whose pieces are all elements is truthy, so it is written and later read as present |
| RedisPathProperties.JoinElements | lib/Redis/Path/PhpRedis.php:54 | encoding a non-empty list of elements gives a truthy value that reads back as that list |
| RedisPathProperties.SaveIntoEmptyField | lib/Redis/Path/PhpRedis.php:12-26 | a falsy field receives exactly the new element; nothing is written when the new element is itself falsy |
| RedisPathProperties.SaveKnownElement | lib/Redis/Path/PhpRedis.php:15-20 | saving an element already in the set writes nothing; the store is unchanged |
| RedisPathProperties.SaveNewElement | lib/Redis/Path/PhpRedis.php:15-17 | a new element is appended after `#`; the old elements keep their order, the new one is last, and no duplicate appears |
| RedisPathProperties.SaveMembers | lib/Redis/Path/PhpRedis.php:12-28 | the saved field's set becomes the old set, with the new element appended when it was absent |
| RedisPathProperties.SaveAliasMembers | lib/Redis/Path/PhpRedis.php:31-39 | `saveAlias` adds the alias to the source's set and the source to the alias's set, each only if absent |
| RedisPathProperties.SaveIdempotent | lib/Redis/Path/PhpRedis.php:15-28 | saving a separator-free element a second time leaves the store exactly as after the first save |
| RedisPathProperties.SaveAliasIdempotent | lib/Redis/Path/PhpRedis.php:31-39 | calling `saveAlias` twice with the same separator-free arguments leaves the store as after the first call |
| RedisPathProperties.SaveAliasWithoutLanguage | lib/Redis/Path/PhpRedis.php:33-35 | saving with no language is saving under `LANGUAGE_NONE` |
| RedisPathProperties.DeleteNoOp | lib/Redis/Path/PhpRedis.php:45-49 | deleting as written changes nothing when the field is falsy, the element is absent, or the element is first |
| RedisPathProperties.DeleteLaterPosition | lib/Redis/Path/PhpRedis.php:49-54 | a first match at a position above 0 is removed; the survivors keep their order |
| RedisPathProperties.DeleteKeepsSingleton | lib/Redis/Path/PhpRedis.php:49-51 | a one-element set is never removed or changed by the as-written delete |
| RedisPathProperties.DeleteCorrectedRemovesMatch | lib/Redis/Path/PhpRedis.php:49-54 | the corrected delete removes the first match at any position, and removes the field when it was the only element |
| RedisPathProperties.LookupPrefersLanguage | lib/Redis/Path/PhpRedis.php:85-95 | with a language whose field is truthy, the answer is that set's first element |
| RedisPathProperties.LookupFallsBack | lib/Redis/Path/PhpRedis.php:88-91 | with a language whose field is falsy, the answer is the `LANGUAGE_NONE` answer |
| RedisPathProperties.LookupWithoutLanguage | lib/Redis/Path/PhpRedis.php:81-95 | with no language only the `LANGUAGE_NONE` field is read; no value answers `""`, a truthy value answers its first element |
| RedisPathProperties.LookupFirstMember | lib/Redis/Path/PhpRedis.php:81-95 | whether or not a language is given, a non-empty set under the normalised language decides `lookupAlias` with its first element |
| RedisPathProperties.SaveAliasThenLookup | lib/Redis/Path/PhpRedis.php:31-106 | after `saveAlias`, each lookup answers its earlier first element, or the newly saved partner when the set was empty |
| RedisPathProperties.SaveAliasRoundTrip | lib/Redis/Path/PhpRedis.php:31-106 | after `saveAlias(s, a, l)` into an empty store, `lookupAlias(s, l) == a` and `lookupSource(a, l) == s` |
| RedisPathProperties.SaveWithoutLanguageFoundUnderLanguage | lib/Redis/Path/PhpRedis.php:81-95 | after `saveAlias(s, a, null)` into an empty store, `lookupAlias(s, l) == a` and `lookupSource(a, l) == s` for every other language `l`, through the fallback |
| RedisPathProperties.SaveTwoAliases | lib/Redis/Path/PhpRedis.php:12-26 | two distinct aliases saved for one source form the set `[a1, a2]`, and the lookup answers `a1` |
| RedisPathProperties.DeleteLanguageThenLookup | lib/Redis/Path/PhpRedis.php:70-95 | after `deleteLanguage(l)`, lookups under `l` answer what `LANGUAGE_NONE` answers, and `""` when that holds nothing |
| RedisPathProperties.WellFormedMembers | lib/Redis/Path/PhpRedis.php:14 | in a well-formed store a present field is truthy, so it is read as a non-empty set |
| RedisPathProperties.SaveKeepsWellFormed | lib/Redis/Path/PhpRedis.php:8-29 | saving an element keeps every stored set duplicate-free and made of elements |
| RedisPathProperties.SaveAliasKeepsWellFormed | lib/Redis/Path/PhpRedis.php:31-39 | `saveAlias` keeps every stored set duplicate-free and made of elements |
| RedisPathProperties.DeleteKeepsWellFormed | lib/Redis/Path/PhpRedis.php:41-58 | the as-written delete keeps every stored set valid |
| RedisPathProperties.DeleteCorrectedKeepsWellFormed | lib/Redis/Path/PhpRedis.php:41-58 | the corrected delete keeps every stored set valid |
| RedisPathProperties.DeleteAliasKeepsWellFormed | lib/Redis/Path/PhpRedis.php:60-68 | the as-written `deleteAlias` keeps every stored set valid |
| RedisPathProperties.DeleteAliasCorrectedKeepsWellFormed | lib/Redis/Path/PhpRedis.php:60-68 | the corrected `deleteAlias` keeps every stored set valid |
| RedisPathProperties.DeleteLanguageKeepsWellFormed | lib/Redis/Path/PhpRedis.php:70-75 | dropping a language keeps every remaining set valid |
| RedisPathProperties.SaveRelated | lib/Redis/Path/PhpRedis.php:8-29 | after a save, an element is in a field's set exactly when it was before or it is the saved element of that field |
| RedisPathProperties.SaveAliasKeepsSymmetric | lib/Redis/Path/PhpRedis.php:31-39 | `saveAlias` keeps every alias-of relation matched by the reverse source-of relation |
| RedisPathProperties.DeleteCorrectedRelated | lib/Redis/Path/PhpRedis.php:41-58 | in a well-formed store, the corrected delete removes exactly the deleted element from that field's set |
| RedisPathProperties.DeleteAliasCorrectedKeepsSymmetric | lib/Redis/Path/PhpRedis.php:60-68 | the corrected `deleteAlias` keeps a well-formed symmetric store symmetric |
| RedisPathProperties.DeleteLanguageKeepsSymmetric | lib/Redis/Path/PhpRedis.php:70-75 | dropping a language keeps the store symmetric |
| RedisPathFindings.TwoAliasesMembers | lib/Redis/Path/PhpRedis.php:31-39 | saving `a1` then `a2` for a source gives the source the set `[a1, a2]`, and each alias the set `[source]` |
| RedisPathFindings.DeleteFirstAliasIgnored | lib/Redis/Path/PhpRedis.php:49 | as written, deleting the first alias of a source changes nothing, and the lookup still answers that alias |
| RedisPathFindings.SharedAliasMembers | lib/Redis/Path/PhpRedis.php:31-39 | saving alias `a` for `t` and then for `s` gives `s` the set `[a]` and `a` the set `[t, s]`, and keeps the store symmetric |
| RedisPathFindings.DeleteAliasBreaksSymmetry | lib/Redis/Path/PhpRedis.php:49-67 | as written, `deleteAlias` can turn a symmetric store into an asymmetric one |
| RedisPathFindings.DeleteCorrectedFirstThenLast | lib/Redis/Path/PhpRedis.php:49-54 | corrected: deleting the first alias leaves the second as the answer; deleting that one too removes the field, and the lookup answers `""` |

## Left out

- The `Redis_Client::getClient()` singleton, connections and the PhpRedis extension are not modelled. They are replaced by a `Client` object injected into `PhpRedis`, whose state is the whole store.
- Store failures are not modelled. In the source they propagate unchanged; here the four primitives always succeed.
- The read-modify-write race between concurrent saves or deletes is not modelled. The model is sequential, one call at a time.
- PHP's loose `==` in `in_array` and `array_search` is not modelled: comparison is strict. For example, the numeric strings `"1"` and `"01"` are equal to PHP but distinct here.
- The concrete key format of `getKey` and the value of `SEPARATOR` are not modelled. Both are defined in `Redis_Path_AbstractHashLookup`, which is not part of this model. The key is an injective constructor, and the separator is `#`, the character `lookupInHash` hard-codes.
- `LANGUAGE_NONE` is a constant of the host system, not of this file; it is taken to be `"und"`.
- Redis deleting a hash whose last field was removed is not modelled: `Erase` leaves an empty inner map. No `hget` can tell the two apart.
- PHP strings are byte strings; the model uses Dafny `string` (`seq<char>`). This makes no difference here: the separator `#` is ASCII, and the code only splits, joins and compares strings for equality.
- `lib/Redis/Tests/AbstractUnitTestCase.php` is not part of this model. It is test bootstrap: autoloading, saving and restoring settings, and installing the schema.

## Findings

| source | as written | input that shows it | evidently intended | confidence | as-written member | corrected member |
|---|---|---|---|---|---|---|
| lib/Redis/Path/PhpRedis.php:49 | `if ($index = array_search(...))` reads a match at position 0 as "not found", so the first element of a set cannot be deleted (line 50 presupposes the opposite) | `saveAlias("s", "a1")`, `saveAlias("s", "a2")`, then `deleteAlias("s", "a1")`: the store is unchanged and `lookupAlias("s")` is still `"a1"` | a match at position 0 is removed, so `lookupAlias("s")` becomes `"a2"`; deleting `"a2"` too removes the field | not executed | RedisPathFindings.DeleteFirstAliasIgnored | RedisPathFindings.DeleteCorrectedFirstThenLast |
| lib/Redis/Path/PhpRedis.php:50-51 | the `hdel` of a one-element set is unreachable, because a match above position 0 needs two elements; a field is never removed | a field holding `"a"` alone; deleting `"a"` leaves it unchanged | deleting the only element removes the field | not executed | RedisPathProperties.DeleteKeepsSingleton | RedisPathProperties.DeleteCorrectedRemovesMatch |
| lib/Redis/Path/PhpRedis.php:66-67 | the two directions are deleted with the same position-0 test; one side can be removed while the other stays | `saveAlias("t", "a")`, `saveAlias("s", "a")`, then `deleteAlias("s", "a")`: `"a"` remains an alias of `"s"`, but `"s"` is no longer a source of `"a"` | deleting keeps the two hashes mutually consistent | not executed | RedisPathFindings.DeleteAliasBreaksSymmetry | RedisPathProperties.DeleteAliasCorrectedKeepsSymmetric |
