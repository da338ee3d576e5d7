# dc-localization: the translation table

A Dafny model of the `Localization` class of dc-localization and of the alias
tables it reads. A `Localization` holds one language's translation table:
an ordered, read-only mapping from localization keys (such as
`tid_unit_1000_name`) to texts. The model covers:

- lookup by key and reverse lookup by text;
- the five templated getters for dragons, attacks and skills;
- text normalization, and search over keys and over texts;
- serialization to an array of single-entry objects, and the merge that
  `create` uses to rebuild the table from that array;
- the `compare` diff between two snapshots of a table;
- `translate`, which rewrites the localization-key fields of a game record
  into `name`, `type` and `description` fields.

Modules:

- `JsObject` (js_object.dfy): a JavaScript object as an ordered sequence of
  properties. It provides `o[k]`, `o[k] = v`, `delete o[k]`,
  `Object.keys`/`Object.values` and `Object.assign`. The order is the
  object's iteration order.
- `JsString` (js_string.dfy): `includes` and `trim` with the ECMAScript
  white-space set. It also has the removal of the combining marks
  U+0300–U+036F and the decimal form that `${id}` gives an integer.
- `Keys` (keys.dfy): the snake_case and camelCase alias lists and their
  concatenations.
- `TextSearch` (search.dfy): the normalization pipeline and the filter behind
  `searchKeys` and `searchValues`.
- `Comparison` (comparison.dfy): the three lists `compare` produces, as
  functions of the two snapshots.
- `Translation` (translation.dfy): the `translate` loop as a fold. It has a
  field-by-field reference description, `ExpectedField`, and proves the
  fold equal to it.
- `Sequences` (seqs.dfy): the associativity of concatenation, which several
  proofs use.
- `Localization` (localization.dfy): the table itself. Its fields are never
  reassigned, so it is a datatype. `compare`, `translate` and
  `normalizeText` change local state step by step, so they are methods with
  loops or reassignments. Each is proved equal to the corresponding
  specification function.

## Model

| member | source | states |
|---|---|---|
| JsObject.Get | src/localization.ts:38 | A property read is absent exactly when the key is not an own property; when present, it is the value of a property with that name. |
| JsObject.Set | src/localization.ts:212 | After an assignment the key reads the new value and every other key reads what it read before. An existing key keeps its place, a new one is appended, and unique names stay unique. |
| JsObject.Delete | src/localization.ts:213 | After a deletion the key reads nothing and every other key reads what it read before. Deleting a missing key leaves the object as it is. With unique names exactly the one property of that name is cut out, and the others keep their order; unique names stay unique. |
| JsObject.Assign | src/localization.ts:29 | The merged object has exactly the names of the target and the source. A name the source lacks reads what it read in the target. When the source's names are unique, each of them reads the source's value. Unique target names stay unique. |
| JsObject.AssignAll | src/localization.ts:29 | Merging a list of objects left to right gives exactly the names of the target and of the sources. A name no source has reads as in the target. When each source has unique names, a name reads its value in the last source that has it. Unique names stay unique. |
| Localization.Localization.GetValueFromKey | src/localization.ts:37-39 | The result is absent exactly when the key is not in the table. When present it is the text of an entry with that key, and in a table with unique keys it is that entry's text. |
| Localization.Localization.GetKeyFromValue | src/localization.ts:41-44 | The result is absent exactly when no entry has that text. Otherwise it is the key of an entry with that text, and no earlier entry has it. |
| Localization.FirstKeyWithValue | src/localization.ts:42-43 | `find` over the entries in order: absent exactly when the text is not among the values; otherwise the key of the first entry with that text. |
| Localization.KeyFromValueRoundTrip | src/localization.ts:37-44 | Looking up a stored text, then its key, then that key's text again gives the same text back. |
| Localization.Localization.GetDragonName | src/localization.ts:46-49 | The result is the table's entry for `tid_unit_{id}_name`, and absent exactly when that key is missing. |
| Localization.Localization.GetDragonDescription | src/localization.ts:51-54 | The result is the table's entry for `tid_unit_{id}_description`, and absent exactly when that key is missing. |
| Localization.Localization.GetAttackName | src/localization.ts:56-59 | The result is the table's entry for `tid_attack_name_{id}`, and absent exactly when that key is missing. |
| Localization.Localization.GetSkillName | src/localization.ts:61-64 | The result is the table's entry for `tid_skill_name_{id}`, and absent exactly when that key is missing. |
| Localization.Localization.GetSkillDescription | src/localization.ts:66-69 | The result is the table's entry for `tid_skill_description_{id}`, and absent exactly when that key is missing. |
| Localization.TemplateKeysDistinct | src/localization.ts:46-69 | Two templated getters read the same key if and only if they are the same getter with the same id. |
| JsString.NumberToString | src/localization.ts:47 | The decimal form of an integer is non-empty. It starts with `-` exactly for a negative number, every other character is a digit, and those digits read back, most significant first, as the number's magnitude. |
| JsString.NatToDecimal | src/localization.ts:47 | The digits of a natural number have no leading zero, at least two of them exactly from 10 on, and read back as the number. |
| JsString.NumberToStringExample | src/localization.ts:47 | The id 1000 is spliced in as "1000" and -7 as "-7". |
| JsString.NumberToStringInjective | src/localization.ts:47 | Two integers have the same decimal form if and only if they are equal. |
| TextSearch.Normalized | src/localization.ts:71-86 | With all three options off the text is unchanged. With `normalizeLetters` the result has no mark in U+0300–U+036F. With `trimSpaces` it neither starts nor ends with white space. |
| Localization.Localization.NormalizeText | src/localization.ts:71-86 | Reassigning the text step by step (lower-case, NFD and mark removal, trim, each only when its flag is set) gives `Normalized`. |
| JsString.RemoveCombiningMarks | src/localization.ts:81 | The result is never longer and contains no combining mark. A character is kept exactly when it is not such a mark, and a text without marks comes back unchanged. |
| JsString.RemoveCombiningMarksAppend | src/localization.ts:81 | Removing marks from a concatenation is concatenating the two texts with their marks removed. |
| JsString.Trim | src/localization.ts:83 | The result is the text with a white-space prefix and suffix cut off, and it neither starts nor ends with white space. |
| JsString.TrimIdempotent | src/localization.ts:83 | Trimming a trimmed text changes nothing. |
| JsString.IncludesFacts | src/localization.ts:111 | Every text includes the empty text and itself, and a text can only include something no longer than itself. |
| TextSearch.Matching | src/localization.ts:103-112 | The filter keeps exactly the items whose normalized form includes the query, each as often as it occurs in the input, and drops every other item; it is never longer than the input. |
| TextSearch.MatchingAppend | src/localization.ts:103-112 | Filtering a concatenation is concatenating the filtered parts, so the filter keeps the input's order. |
| TextSearch.MatchingAll | src/localization.ts:103-112 | When every item matches, the filter returns the input unchanged. |
| TextSearch.MatchingEmptyQuery | src/localization.ts:103-112 | An empty query matches every item, so the input comes back unchanged. |
| Localization.Localization.SearchKeys | src/localization.ts:88-115 | A key is returned exactly when it is in the table and its normalized form contains the normalized query; an empty normalized query returns all keys in table order. |
| Localization.Localization.SearchValues | src/localization.ts:117-144 | Each text is returned as often as it occurs in the table when its normalized form contains the normalized query, and not at all otherwise; an empty normalized query returns all texts in table order. |
| Localization.Localization.ToObject | src/localization.ts:146-148 | Every key reads through the returned object what `GetValueFromKey` gives, and the keys come in table order. |
| Localization.Localization.ToArray | src/localization.ts:150-154 | One single-entry object per table entry, in table order. |
| Localization.Create | src/localization.ts:29 | Merging the fetched array of objects gives a table in the requested language with unique keys. The table has exactly the keys some fetched object has. When each object has unique keys, a key holds its text in the last object that has it. |
| Localization.MergeSingleEntries | src/localization.ts:29 | Merging, left to right, the single-entry objects of a table with unique keys gives back that table, in order. |
| Localization.CreateFromArray | src/localization.ts:29 | Building a table from another table's `toArray` output in its language gives back that table. |
| Comparison.NewFieldsOf | src/localization.ts:167-172 | The new fields are exactly the entries of the new snapshot whose key the old snapshot lacks. |
| Comparison.EditedFieldsOf | src/localization.ts:173-181 | The edited fields are exactly the entries of the new snapshot whose key the old snapshot holds with a different text, paired with that old text. |
| Comparison.DeletedFieldsOf | src/localization.ts:184-191 | The deleted fields are exactly the entries of the old snapshot whose key the new snapshot lacks. |
| Comparison.NewFieldsInOrder | src/localization.ts:167-172 | The new fields' keys are keys of the new snapshot, one entry per key, in the new snapshot's order. |
| Comparison.EditedFieldsInOrder | src/localization.ts:173-181 | The edited fields' keys are keys of the new snapshot, one entry per key, in the new snapshot's order. |
| Comparison.DeletedFieldsInOrder | src/localization.ts:184-191 | The deleted fields' keys are keys of the old snapshot, one entry per key, in the old snapshot's order. |
| Comparison.NewFieldsOfAppend | src/localization.ts:167-172 | The new fields of a concatenated snapshot are those of its first part followed by those of its second. |
| Comparison.EditedFieldsOfAppend | src/localization.ts:173-181 | The edited fields of a concatenated snapshot are those of its first part followed by those of its second. |
| Comparison.DeletedFieldsOfAppend | src/localization.ts:184-191 | The deleted fields of a concatenated old snapshot are those of its first part followed by those of its second. |
| Localization.Localization.Compare | src/localization.ts:156-198 | It fails with "Languages do not match" exactly when the languages differ. Otherwise the two loops fill the three lists with exactly `ComparisonOf` of the two tables. |
| Localization.Localization.CompareWith | src/localization.ts:200-202 | The instance form has the same failure and result as `Compare` with this table as the old one. |
| Comparison.ComparisonPartition | src/localization.ts:167-191 | New means only in the new snapshot, edited means in both with different texts, deleted means only in the old snapshot; no key is in two lists. |
| Comparison.CompareWithItself | src/localization.ts:167-191 | Comparing a snapshot with itself gives three empty lists. |
| Comparison.CompareSwapped | src/localization.ts:167-191 | Swapping the snapshots exchanges the new and deleted keys and keeps the edited ones. |
| Localization.Localization.ReplaceAliasField | src/localization.ts:209-213 | Looking up the alias field's key and, for a non-empty text, writing it under the category's field and deleting the alias field gives `ReplaceAlias`. |
| Localization.Localization.TranslateField | src/localization.ts:208-230 | One pass of the loop body (a name or type alias, then separately a description alias) gives `TranslateStep`. |
| Localization.Localization.Translate | src/localization.ts:204-235 | The loop over a copy of the record produces the fold of the per-field step, every field holds what `ExpectedField` says, and field names stay unique. |
| Translation.TranslateFoldField | src/localization.ts:207-232 | After any prefix of the loop, a resolved alias field is gone. `name`, `type` and `description` hold the last non-empty text of their category if one resolved. Every other field holds what the original record holds. |
| Translation.TranslateStepField | src/localization.ts:208-230 | One loop step removes a resolved alias field, writes its text into its category's field, and changes nothing else; an unresolved field changes nothing. |
| Translation.TranslatePassThrough | src/localization.ts:207-232 | A field that is neither an alias nor `name`, `type` or `description` comes through `translate` unchanged. |
| Translation.TranslateAliasField | src/localization.ts:208-230 | An alias field is removed when its value is a key with a non-empty text, and keeps its value otherwise. |
| Translation.TranslateFoldDistinct | src/localization.ts:207-232 | `translate` keeps field names unique. |
| Translation.TranslateResolvedExample | src/localization.ts:208-213 | A record `{hp: 100, tid_name: "tid_dragon_1"}` against a table mapping that key to "Drake" becomes `{hp: 100, name: "Drake"}`. |
| Translation.TranslateEmptyTextExample | src/localization.ts:208-213 | An alias whose key maps to the empty text is left in place. |
| Keys.KeysToTranslate | src/utils/keys.ts:30-43 | Each combined list is the snake_case list of its category followed by the camelCase one. |
| Keys.CombinedLists | src/utils/keys.ts:30-43 | The three combined lists, literally, with 8, 2 and 4 entries in declared order. |
| Keys.AliasListsDisjoint | src/utils/keys.ts:1-11 | No alias belongs to two categories, and no list contains `name`, `type` or `description`. |
| Keys.SnakeAndCamelCounterparts | src/utils/keys.ts:1-11 | For each category the two lists have equal length, and each camelCase alias is the camelCase spelling of the snake_case alias at the same position. |

## Left out

- `buildUrl`, `fetch` and the HTTP request in `create` (src/localization.ts:17-35) are network I/O and a fixed URL. Only the merge of the fetched array is modelled, as `Create`. The `url` field is left out with them.
- `toLowerCase` and `normalize("NFD")` depend on Unicode tables. They are the two functions of a `UnicodeOps` parameter, so no property of them is used, and idempotence of normalization is not claimed. `trim` and the removal of U+0300–U+036F are modelled exactly.
- Prototype-chain hits are not modelled. In the source, `key in obj` and `data[key]` also see inherited names such as `toString`; the model sees only own properties.
- The model keeps insertion order for every key. JavaScript iterates integer-like keys first, in ascending order, so the model does not capture that ordering.
- Localization.Localization.Translate: an alias field whose value is not a string is treated as unresolved. The source would coerce that value to a string before the lookup.
- Localization.Localization.GetDragonName, GetDragonDescription, GetAttackName, GetSkillName, GetSkillDescription: the id is an integer. Non-integer numbers, `NaN` and the exponent notation of very large numbers in `${id}` are not modelled.
- Localization.Localization.Compare, Localization.Localization.CompareWith, Localization.Localization.Translate: require unique keys. A JavaScript object always has them, so only sequences that stand for no object are excluded.
- Translate runs over a snapshot of the copy's field names. The source's `for...in` may or may not visit the `name`, `type` and `description` fields it adds; those fields are never aliases (`Keys.AliasListsDisjoint`), so visiting them would change nothing.
- That `translate` leaves its input unchanged is not stated separately: records are values in the model, so the input cannot change.
- The `Translated<T>` type of src/types.ts is compile-time typing with no run-time behaviour. The language enumeration comes from another package; a language is an opaque string compared for equality.
- Localization.Localization.ToObject: returns the table's entries as a value. The source returns the table's own `data` object, so a caller that mutates it alters the table; that aliasing is not modelled.
- The default arguments of `normalizeText`, `searchKeys` and `searchValues` (every switch on) are not modelled; callers pass the three switches explicitly.
- `Compare` throws an exception in the source; the model returns an `Error` result carrying the same message.
