# papyro core, modelled in Dafny

papyro is a small content-management site: a public site (header menu, home page, events, podcast episodes) and an admin panel (pages, menu order, events, gallery, podcasts, files, users) over a Firebase backend. This project models the logic the repository itself contains and proves what it promises:

- **Validation engine** (`validation.dfy`): `validate`, the four rule kinds (Required, MinLen, Email, IsEqual), dotted-path lookup, exceptions swallowed as a valid field, first failure per field, invalid names reported once.
- **JavaScript building blocks** (`js.dfy`, `lists.dfy`): the value model (`Undefined`, `Null`, `Bool`, `Num`, `Str`, `Arr`, `Obj`), `trim`, `toLowerCase`, `indexOf`, string `<`, `isNaN` on strings through the numeric-literal grammar, and `filter`, `find`, `map`, `slice`, `sort` (a sorted permutation) on sequences.
- **Helpers** (`utils.dfy`): `chunk`, `getExtension`, `cleanRelativePath`, `truncate`, `contains`/`notContains`, `hashObj`.
- **Repository layer** (`repository.dfy`, `page_model.dfy`, `user_model.dfy`, `podcast_model.dfy`, `cms_model.dfy`): a backend collection as a class holding its documents and their query order; Save, Update, UnsafeUpdate, Upsert, Delete, FindById, the Subscribe snapshot, the schema literals, FindByPermalink, FindByEmail, SetApprovalStatus, the podcast `Save` that stamps `createdAt`, and `CMSRepo.Load`/`Default`.
- **Account admission** (`auth_api.dfy`, `login.dfy`): registering and signing in with e-mail, Google or Facebook, as steps on an authentication session and the users collection; the login form's schema and its error-code dispatch.
- **CMS list maintenance** (the remaining files): the admin lists and editors for pages, menu order, events, pictures, podcasts, files and users, and the public Header, Home, Events and PodcastEpisodes components. Each component's local state is a class; the global `cms` object is the class `CmsModel.Cms`, passed to the methods that change it. File deletions and backend patches are recorded in an `effects` log.

Fresh ids (`uuid`, Firestore's generated keys), the clock (`nowEpoch`, `Date.now`) and the day bounds computed with moment.js are parameters of the operations that use them.

## Model

| member | source | states |
|---|---|---|
| Js.OrElse | src/core/components/events/EventsCreateOrEdit.tsx:89 | `s \|\| d` on an optional string: the string itself when it is given and non-empty, otherwise the default |
| Js.TrimStart | src/core/utils/validation.tsx:142 | the result is a suffix of the input whose first character is not white space, and everything dropped is white space |
| Js.TrimEnd | src/core/utils/validation.tsx:142 | the result is a prefix of the input whose last character is not white space, and everything dropped is white space |
| Js.Trim | src/core/utils/validation.tsx:142 | `trim()`: no longer than the input, and a non-empty result neither starts nor ends with white space; `TrimEmptyIff` and `TrimUnchanged` give when it is empty and when it changes nothing |
| Js.TrimEmptyIff | src/core/utils/validation.tsx:142 | `trim()` gives `''` exactly when every character is white space |
| Js.TrimUnchanged | src/core/utils/validation.tsx:154 | a string that neither starts nor ends with white space is its own trim |
| Js.Lower | src/core/components/users/UserManagement.tsx:42-43 | `toLowerCase` restricted to ASCII: `A`-`Z` become `a`-`z`, every other character is kept, one character at a time |
| Js.IncludesIff | src/core/components/users/UserManagement.tsx:42-43 | `indexOf(sub) !== -1` holds exactly when `sub` occurs at some position of the string |
| Js.MatchesQueryBasics | src/core/components/users/UserManagement.tsx:42-43 | the empty query matches every field, and every field matches itself as a query |
| Js.Join | src/core/utils/utils.tsx:15 | `join` of a single element is that element |
| Js.NatToString | src/core/utils/utils.tsx:15 | the decimal form of a number is non-empty and made only of digits |
| Js.StrictEquals | src/core/utils/validation.tsx:175 | `value === compare` holds exactly for equal primitives; two objects or arrays never compare equal, as the model carries no references |
| Js.CodePointLessTotal | src/core/models/BaseModel.tsx:52-61 | the key order of query results, by code point, is total |
| Js.CodePointLessTransitive | src/core/models/BaseModel.tsx:52-61 | the key order by code point is transitive |
| Js.CodePointLessIrreflexive | src/core/models/BaseModel.tsx:52-61 | no key is below itself in code-point order |
| Js.Utf16RankOrder | src/app/components/Header.tsx:42-43 | a character's rank orders two distinct characters as their UTF-16 code units do, first unit first and then the low surrogate, and distinct characters get distinct ranks |
| Js.StrLess | src/app/components/Header.tsx:42-43 | string `>`/`<` as JavaScript evaluates it: lexicographic on UTF-16 code units, compared through the characters' ranks; its order properties are the three lemmas below |
| Js.StrLessByCodeUnits | src/app/components/Header.tsx:42-43 | U+1F600 is below U+FF01 for JavaScript's `<` although its code point is above: the two orders differ |
| Js.StrLessTotal | src/app/components/Header.tsx:42-43 | JavaScript's string `<` is total: of two strings one is below the other or they are equal |
| Js.StrLessTransitive | src/app/components/Header.tsx:42-43 | string `<` is transitive |
| Js.StrLessIrreflexive | src/app/components/Header.tsx:42-43 | no string is below itself |
| Lists.Filter | src/core/components/podcasts/PodcastList.tsx:50-54 | `Array.prototype.filter`: exactly the elements that pass are kept, the result is no longer than the input, and a predicate every element passes keeps the whole list |
| Lists.FilterSnoc | src/core/components/podcasts/PodcastList.tsx:50-54 | filtering a list with one more element adds that element at the end exactly when it passes |
| Lists.FilterAppend | src/core/components/podcasts/PodcastList.tsx:50-54 | filtering distributes over concatenation, so the kept elements stay in input order |
| Lists.FilterMultiset | src/core/components/podcasts/PodcastList.tsx:50-54 | each passing value is kept as many times as it occurs, a failing one not at all |
| Lists.FilterPermutation | src/app/components/Header.tsx:42-48 | filtering two permutations of each other gives permutations of each other |
| Lists.FilterSubsequence | src/core/components/users/UserManagement.tsx:41 | the result of `filter` is a subsequence of its input |
| Lists.Map | src/app/components/PodcastEpisodes.tsx:28 | `Array.prototype.map`: same length, element `i` is `f` of input element `i` |
| Lists.Take | src/app/components/PodcastEpisodes.tsx:28 | `slice(0, n)`: the first `min(n, length)` elements |
| Lists.FilterSorted | src/core/components/pages/PageReorder.tsx:75-82 | filtering a sorted list keeps it sorted |
| Lists.Insert | src/core/components/podcasts/PodcastList.tsx:58-59 | inserting into a sorted list keeps it sorted and adds exactly that element |
| Lists.SortBy | src/core/components/podcasts/PodcastList.tsx:58-59 | `Array.prototype.sort` with a total preorder: the result is sorted and a permutation of the input |
| Lists.ByIntKey | src/app/components/Events.tsx:24 | the comparator `a.key > b.key ? 1 : -1` orders ascending by the numeric key |
| Lists.ByIntKeyDesc | src/core/components/podcasts/PodcastList.tsx:58-59 | the comparator `a.publishedAt > b.publishedAt ? -1 : 1` puts a larger key first: descending by the numeric key |
| Lists.ByStringKey | src/app/components/Header.tsx:42-43 | ascending order by a string key, with JavaScript's string comparison on UTF-16 code units |
| Lists.ByStringKeyDesc | src/core/components/pages/PageReorder.tsx:84-85 | descending order by a string key, with JavaScript's string comparison on UTF-16 code units |
| Lists.IntKeyOrders | src/core/components/podcasts/PodcastList.tsx:58-59 | both numeric-key orders are total preorders, so the sort's contract applies |
| Lists.StringKeyOrders | src/app/components/Header.tsx:42-43 | both string-key orders are total preorders |
| Lists.PutFirst | src/core/components/events/EventsCreateOrEdit.tsx:103-109 | `[x, ...list.filter(y => y.id !== x.id)]`: `x` first, then exactly the other elements whose id differs, in order |
| Lists.PutFirstIds | src/core/components/events/EventsCreateOrEdit.tsx:103-109 | after `x` no element carries `x`'s id, and every element of another id is kept |
| Lists.Find | src/core/components/events/EventsCreateOrEdit.tsx:104 | `Array.prototype.find`: none exactly when no element passes; otherwise the first passing element |
| Lists.FilterKeepsKeysUnique | src/core/components/events/EventsCreateOrEdit.tsx:103-109 | filtering a list with one element per key keeps one element per key |
| Lists.PutFirstKeepsKeysUnique | src/core/components/events/EventsCreateOrEdit.tsx:103-109 | putting an element first keeps one element per id |
| Lists.DistinctPermutation | src/app/components/Header.tsx:42-43 | a permutation of a duplicate-free list is duplicate-free |
| Utils.Split | src/core/utils/validation.tsx:122 | `split` on one character gives at least one piece and no piece contains the separator |
| Utils.SplitThenJoin | src/core/utils/validation.tsx:122 | joining the pieces of a split with the separator gives back the string |
| Utils.SplitWithoutSep | src/core/utils/validation.tsx:120-121 | a string without the separator splits into itself alone |
| Utils.SplitAfterPiece | src/core/utils/validation.tsx:122 | a separator-free piece followed by the separator splits off as the first piece |
| Utils.JoinThenSplit | src/core/utils/utils.tsx:15 | splitting a join of separator-free pieces gives back the pieces |
| Utils.Chunk | src/core/utils/utils.tsx:41-52 | the shifting and wrapping loop of `chunk` builds exactly the round-robin buckets `Columns(arr, size)` |
| Utils.IndexWraps | src/core/utils/utils.tsx:46-49 | resetting the index at `size` sends element `k` to bucket `k % size` |
| Utils.Columns | src/core/utils/utils.tsx:41-52 | `chunk`'s buckets, one per column: exactly `size` of them; their contents are stated by the three lemmas below |
| Utils.ColumnLength | src/core/utils/utils.tsx:41-52 | bucket `b` holds `length / size` elements, plus one when `b < length % size` |
| Utils.ColumnElement | src/core/utils/utils.tsx:41-52 | element `j` of bucket `b` is input element `j * size + b`, so each bucket keeps input order |
| Utils.ColumnsPrefixTotal | src/core/utils/utils.tsx:41-52 | the first `k` buckets hold `k * (n / size) + min(k, n % size)` elements together |
| Utils.ColumnsBalanced | src/core/utils/utils.tsx:41-52 | bucket lengths never grow from left to right, differ by at most one and sum to the input length |
| Utils.GetExtension | src/core/utils/utils.tsx:60-64 | the extension is lower-case letters and digits, and when non-empty it is the lower-cased run after a `.` that ends the name |
| Utils.GetExtensionOf | src/core/utils/utils.tsx:60-64 | any name ending in `.` and a non-empty alphanumeric run has that run, lower-cased, as its extension |
| Utils.GetExtensionExamples | src/core/utils/utils.tsx:60-64 | `a.tar.GZ` gives `gz`; `a.`, `noext`, `x.b-c` and `''` give `''` |
| Utils.StripDotGroups | src/core/utils/utils.tsx:7 | the result is a suffix of the path that no longer starts with a dots-and-slash group; the removed prefix holds only dots and slashes, starts with a dot and ends with a slash; a path that starts with no group is returned unchanged |
| Utils.CleanRelativePath | src/core/utils/utils.tsx:7 | a path that starts with no dots-and-slash group is only trimmed; otherwise the result is the trimmed rest after a prefix of dots and slashes, and that rest starts with no group |
| Utils.StripOneGroup | src/core/utils/utils.tsx:7 | one leading `./` or `../` style group is removed whatever follows it |
| Utils.CleanRelativePathGroups | src/core/utils/utils.tsx:7 | a leading group does not change the cleaned path; after the last group the result is the trimmed rest |
| Utils.Truncate | src/core/utils/utils.tsx:113 | unchanged when no longer than `len`; otherwise the first `len` characters, a space and the ending |
| Utils.TruncateBound | src/core/utils/utils.tsx:113 | a truncated text is at most `len + 1 + |ending|` long, and an untruncated one is the input |
| Utils.IndexOf | src/core/utils/utils.tsx:24 | `indexOf`: -1 exactly when the value is absent; otherwise the first position holding it |
| Utils.Contains | src/core/utils/utils.tsx:24 | `indexOf(value) !== -1` holds exactly when the value is in the array |
| Utils.NotContains | src/core/utils/utils.tsx:33 | `!contains(arr, value)` holds exactly when the value is not in the array |
| Utils.ContainsIsMembership | src/core/utils/utils.tsx:24-33 | `contains` is membership and `notContains` is exactly its negation |
| Utils.HashObj | src/core/utils/utils.tsx:15 | an object without properties hashes to `''`, and one with a single string property hashes to that string |
| Utils.HashObjSplits | src/core/utils/utils.tsx:15 | for string values without `_`, splitting the hash at `_` gives back the values in property order |
| Validation.Prop | src/core/utils/validation.tsx:125 | reading a property throws exactly on `undefined` and `null`; on an object it reads the field, `undefined` when absent; on a string or an array `length` is its length |
| Validation.ResolvePath | src/core/utils/validation.tsx:119-127 | what `getValue` yields: a plain key read directly, a dotted path walked segment by segment, none where a step reads through `undefined`/`null`; `GetValue` computes it and `DottedPath` states the two-segment case |
| Validation.PropIndex | src/core/utils/validation.tsx:125 | on a string a decimal index reads the one-character string there, on an array the element there, `undefined` past the end |
| Js.IndexKeyOfNat | src/core/utils/validation.tsx:125 | the decimal form of every natural number is read back as that array index |
| Validation.GetValue | src/core/utils/validation.tsx:119-127 | the loop that shifts path segments reads a plain key directly and otherwise walks the dotted path, throwing where a step reads through `undefined`/`null` |
| Validation.DottedPath | src/core/utils/validation.tsx:119-127 | `a.b` reads `b` of the object at `a`, throws when `a` is `undefined` or `null`, and reads `undefined` through a number or boolean |
| Validation.RequiredFailsIff | src/core/utils/validation.tsx:135-143 | Required fails for exactly two values, the number 0 and `''`; `undefined`, `null`, `'0'` and white-space strings pass |
| Validation.RequiredThrowsIff | src/core/utils/validation.tsx:139-142 | Required throws only on plain objects and on arrays `isNaN` rejects, never on strings or numbers |
| Validation.CheckRequired | src/core/utils/validation.tsx:135-143 | `isEmpty`: `undefined` and `null` pass and only objects and arrays can throw; `RequiredFailsIff` and `RequiredThrowsIff` give exactly when it fails and when it throws |
| Validation.CheckMinLen | src/core/utils/validation.tsx:102-103 | MinLen throws on every non-string (e.g. a missing field) and on a string passes exactly when the trimmed length reaches `len` |
| Validation.EmailIgnoresCase | src/core/utils/validation.tsx:164 | the e-mail pattern carries the `i` flag: a string and its lower-case form are judged alike |
| Validation.IsEmail | src/core/utils/validation.tsx:163-166 | the `isEmail` pattern test; `EmailShape`, `TwoLabelHost` and `EmailIgnoresCase` state what it accepts, and `PlainAddressAccepted`, `DotlessHostRejected` and `EmptyIsNotEmail` give its cases |
| Validation.EmailShape | src/core/utils/validation.tsx:164 | with one `@`, an address is accepted exactly when the part before is a dot-separated local part and the part after a host with optional port |
| Validation.TwoLabelHost | src/core/utils/validation.tsx:164 | a two-label host is accepted exactly when both labels are non-empty runs of `[a-z0-9_-]`, the first not starting with `-`, and the second a listed domain or two letters |
| Validation.PlainAddressAccepted | src/core/utils/validation.tsx:163-166 | a lower-case `local@label.tld` of letters and digits with a listed or two-letter top-level domain, such as `john@doe.com`, is an e-mail address |
| Validation.DotlessHostRejected | src/core/utils/validation.tsx:163-166 | an address whose host has no dot, such as `john@doe`, is not |
| Validation.EmptyIsNotEmail | src/core/utils/validation.tsx:163-166 | `''` is not an e-mail address |
| Validation.CheckFieldValid | src/core/utils/validation.tsx:98-109 | reads the field, then applies the rule's test; a read that throws makes the rule throw |
| Validation.FieldOutcome | src/core/utils/validation.tsx:64-77 | the verdict of one entry's rules in order: the first failing rule makes the field invalid with its hint and a throwing rule ends the checks with the field valid; `CheckRules` computes it, and `FirstFailureStops` and `ThrowingRuleLeavesFieldValid` state those cases |
| Validation.EntryOutcome | src/core/utils/validation.tsx:57-77 | an entry without validations is skipped as valid, otherwise its rules decide; `NoRulesIsValid` and `Step` state its effect on the result |
| Validation.CheckRule | src/core/utils/validation.tsx:98-109 | a field whose path read throws makes the rule throw; only the path read, Required and MinLen can throw, while Email and IsEqual always decide |
| Validation.IsEqualReadsPlainKey | src/core/utils/validation.tsx:106-107 | IsEqual compares the field with `model[compareTo]` by plain key and strict equality |
| Validation.CheckRules | src/core/utils/validation.tsx:64-77 | the rules of one entry, run until one fails or throws: the field is valid exactly when the entry's outcome is, and the failing rule's non-empty hint, and nothing else, is pushed onto the hints |
| Validation.Validate | src/core/utils/validation.tsx:50-88 | the loop over entries and rules computes exactly `ValidateSpec`: rules in order, the first failure stops the field with its hint, a throw ends the field as valid, invalid names recorded once |
| Validation.Step | src/core/utils/validation.tsx:57-84 | one schema entry: the form stays valid exactly when it was valid and the entry passes; the invalid names and the hints are only extended, by at most one each |
| Validation.ValidateSpec | src/core/utils/validation.tsx:57-87 | the result of `validate`: at most one invalid name and one hint per entry, and a valid form reports neither |
| Validation.NoRulesIsValid | src/core/utils/validation.tsx:57-60 | a schema list whose entries have no or empty `validations` gives `isValid` true and empty lists |
| Validation.ValidateSummary | src/core/utils/validation.tsx:50-88 | valid exactly when no entry fails; `invalidFields` are exactly the failing names, each once, in order of first failure; every hint is a failing entry's non-empty hint; at most one hint per entry; a valid result has empty lists |
| Validation.InvalidFieldsSummary | src/core/utils/validation.tsx:79-81 | `invalidFields` holds exactly the names of the failing entries, each once |
| Validation.InvalidFieldsInFailureOrder | src/core/utils/validation.tsx:57-84 | `invalidFields` is exactly the names of the failing entries in schema order, each kept at its first failure and skipped when it fails again |
| Lists.Dedup | src/core/utils/validation.tsx:79-81 | each element once: the same members as the input and no repeats; `DedupFirstOccurrence` gives the order |
| Lists.DedupFirstOccurrence | src/core/utils/validation.tsx:79-81 | an element kept before another occurs in the input before any occurrence of the other, so the elements are kept in order of first occurrence |
| Lists.DedupSnoc | src/core/utils/validation.tsx:79-81 | pushing a value already listed changes nothing; a new one goes last, as the `notContains` guard does |
| Validation.HintsSummary | src/core/utils/validation.tsx:71-74 | every hint is the non-empty hint of a failing entry, at most one per entry |
| Validation.HintsInSchemaOrder | src/core/utils/validation.tsx:66-76 | the hints are exactly the non-empty hints of the failing entries' first failing rules, one per such entry, in schema order |
| Validation.ValidHasNoReports | src/core/utils/validation.tsx:50-88 | a valid result lists no field and no hint |
| Validation.ValidIffNoFailure | src/core/utils/validation.tsx:84-87 | `isValid` holds exactly when no entry fails |
| Validation.ValidIffFields | src/core/utils/validation.tsx:84-87 | the same, for a schema given as names and rule lists |
| Validation.TwoFieldsValidIff | src/core/utils/validation.tsx:84-87 | a two-entry schema is valid exactly when both fields are |
| Validation.ThreeFieldsValidIff | src/core/utils/validation.tsx:84-87 | a three-entry schema is valid exactly when all three fields are |
| Validation.ThrowingRuleLeavesFieldValid | src/core/utils/validation.tsx:64-77 | a dotted path through a missing object throws, the exception is swallowed and the form is valid with no hint |
| Validation.MinLenOnMissingFieldIsValid | src/core/utils/validation.tsx:64-77 | Required passes on a missing field, MinLen then throws, and the field counts as valid |
| Validation.FirstFailureStops | src/core/utils/validation.tsx:66-76 | after the first failing rule the later rules are not run: only its hint is reported |
| Validation.RepeatedNameReportedOnce | src/core/utils/validation.tsx:73-81 | a name failing in two entries is listed once while each entry adds its hint |
| Validation.RequiredEntry | src/core/utils/validation.tsx:135-143 | a field with the single rule Required is invalid exactly on `0` and `''` |
| Validation.RequiredEmailEntry | src/core/utils/validation.tsx:100-105 | Required then Email on a string: valid exactly when the pattern accepts it; `''` fails at Required, other non-addresses at Email |
| Validation.RequiredMinLenEntry | src/core/utils/validation.tsx:100-103 | Required then MinLen on a string: valid exactly when long enough once trimmed; `''` fails at Required, other short strings at MinLen |
| Validation.RequiredSchema | src/core/models/Page.tsx:25-42 | a schema of single Required rules, one per name, in order |
| Validation.RequiredSchemaValidIff | src/core/utils/validation.tsx:84-87 | a schema of single Required rules is valid exactly when each field passes its rule |
| Validation.AllRequiredValidIff | src/core/models/Page.tsx:25-42 | over plain keys such a schema accepts a record exactly when none of its fields is `0` or `''` |
| Repository.Merge | src/core/models/BaseModel.tsx:75-78 | `set(…, {merge: true})`: patch fields overwrite stored ones, nested objects merge field by field, fields the patch does not name are kept, no other key appears |
| Repository.MergeEmptyPatch | src/core/models/BaseModel.tsx:75-78 | an empty patch changes nothing |
| Repository.MergeIntoNothing | src/core/models/BaseModel.tsx:75-78 | merging into a missing document stores the patch |
| Repository.MergeSelf | src/core/models/BaseModel.tsx:75-78 | merging a document into itself changes nothing |
| Repository.MergeIdempotent | src/core/models/BaseModel.tsx:75-78 | sending the same patch twice has the effect of sending it once |
| Repository.MergeKeepsNested | src/core/components/pages/PageList.tsx:64-66 | a nested field the patch does not name survives |
| Repository.MergeScalar | src/core/models/BaseModel.tsx:75-78 | a patch of one plain field sets that field and keeps every other field |
| Repository.WithId | src/core/models/BaseModel.tsx:100 | `{id: key, ...data}`: every data field, and the key as `id` unless the data has its own |
| Repository.SetMerged | src/core/models/BaseModel.tsx:75-78 | the table after a merge write: only the written key changes, and a new key stores the patch |
| Repository.SortedKeysDistinct | src/core/models/BaseModel.tsx:52-61 | keys in strict order are distinct |
| Repository.InsertKey | src/core/models/BaseModel.tsx:41-44 | a new key joins the ordered key list at its place |
| Repository.FirstMatch | src/core/models/Page.tsx:65-66 | the first key in query order whose document has the field equal to the value, or none when no document has |
| Repository.Collection.constructor | src/core/models/BaseModel.tsx:32-34 | an empty collection |
| Repository.Collection.SetMerge | src/core/models/BaseModel.tsx:77 | merges the patch into the document at the key and keeps the key order consistent |
| Repository.Collection.Save | src/core/models/BaseModel.tsx:41-44 | stores the model as given, `id` field included, under a fresh key and returns that key |
| Repository.Collection.Update | src/core/models/BaseModel.tsx:75-78 | merges the model into the document its `id` names; no other document changes |
| Repository.Collection.UnsafeUpdate | src/core/models/BaseModel.tsx:109-111 | the same merge for an untyped payload |
| Repository.Collection.Upsert | src/core/models/BaseModel.tsx:85-90 | a falsy id saves under a fresh key and returns it; a non-empty id merges and returns none |
| Repository.Collection.Delete | src/core/models/BaseModel.tsx:67-69 | removes exactly the document under the key |
| Repository.Collection.FindById | src/core/models/BaseModel.tsx:97-102 | none for an unknown key; otherwise `{id: key}` overlaid with the stored data |
| Repository.Collection.Snapshot | src/core/models/BaseModel.tsx:52-61 | nothing delivered for an empty collection; otherwise every document once, each mapped like `FindById` |
| Repository.Collection.FirstWhere | src/core/models/Page.tsx:65-66 | the data of the first document in key order whose field equals the value, without an id overlay; none exactly when no document matches |
| Repository.SaveThenFind | src/core/models/BaseModel.tsx:97-102 | a saved document reads back with its fields, and its own `id` field wins over the key |
| Repository.UpdateThenFind | src/core/models/BaseModel.tsx:97-102 | after an update the document reads back with the patch's non-object fields, the id it names and its untouched fields |
| PageModel.PageFieldNames | src/core/models/Page.tsx:25-42 | the two `menuDetails.` entries are dotted paths and the first two plain keys |
| PageModel.MenuDetailsEntry | src/core/models/Page.tsx:34-41 | a `menuDetails.x` entry is valid exactly when that nested field is neither `0` nor `''` |
| PageModel.PageValidIff | src/core/models/Page.tsx:23-43 | a page is valid exactly when `title`, `permalink`, `menuDetails.title` and `menuDetails.position` are all neither `0` nor `''` |
| PageModel.UnpositionedPageInvalid | src/core/models/Page.tsx:38-41 | a page with menu position 0 is invalid and reported under `menuDetails.position` |
| PageModel.FindByPermalink | src/core/models/Page.tsx:63-67 | none for `''`; otherwise the first stored page in key order with that permalink, and none only when no page has it |
| UserModel.UserValidIff | src/core/models/User.tsx:33-55 | a user is valid exactly when the name is non-empty, the e-mail matches the pattern and the password is at least 6 long once trimmed |
| UserModel.FindByEmail | src/core/models/User.tsx:75-79 | none for a missing or empty address; otherwise the first stored user in key order with exactly that e-mail, none only when no user has it |
| UserModel.FindsTheOnlyMatch | src/core/models/User.tsx:75-79 | when one stored user has the address, that user's data is returned |
| UserModel.SetApprovalStatus | src/core/models/User.tsx:86-88 | merges only `{approved}` into the user's document |
| UserModel.ApprovalChangeKeepsFields | src/core/models/User.tsx:86-88 | after the change `approved` is set, every other field of that user and every other user are kept |
| PodcastModel.PodcastValidIff | src/core/models/Podcast.tsx:20-32 | a podcast is valid exactly when neither `title` nor `embed` is `0` or `''` |
| PodcastModel.RoundToSeconds | src/core/models/Podcast.tsx:56 | `Math.round(ms / 1000)`: the whole second within half a second of the time |
| PodcastModel.Stamped | src/core/models/Podcast.tsx:56 | `createdAt` overwritten with the time in seconds, every other field kept |
| PodcastModel.Save | src/core/models/Podcast.tsx:54-58 | stamps `createdAt` on the model, stores it under a fresh key and returns that key |
| PodcastModel.Upsert | src/core/models/Podcast.tsx:54-58 | a podcast without an id reaches the stamping `Save`; one with an id is merged unstamped |
| CmsModel.MenuPositionLabels | src/core/models/CMS.tsx:8-29 | the four positions 1 to 4 have four different non-empty labels, and every other number the label `''` |
| CmsModel.MenuPositionLabel | src/core/models/CMS.tsx:21-29 | `getMenuPositionLabel`: a non-empty label exactly for the four positions 1 to 4; `MenuPositionLabels` adds that the four labels differ |
| CmsModel.FileDeletion | src/core/components/events/EventsCreateOrEdit.tsx:104-107 | a file to delete gives exactly one `deleteFile` call for its path; no file gives none |
| CmsModel.Cms.constructor | src/core/models/CMS.tsx:106-114 | the CMS object holds the five given lists |
| CmsModel.Overlay | src/core/models/CMS.tsx:145 | the loaded record has the default's fields, the document's fields and `id`; a stored field wins over the default, and `id` is the document's key even over a stored `id` |
| CmsModel.Load | src/core/models/CMS.tsx:142-147 | `Default` for an empty collection; otherwise the first document in key order laid over `Default` |
| CmsModel.StoredFieldReplacesDefault | src/core/models/CMS.tsx:145 | a stored list or `stats` replaces the default one as a whole |
| AuthApi.AuthSession.constructor | src/core/api/authApi.tsx:259 | a new session has no signed-in user |
| AuthApi.AuthSession.SignOut | src/core/api/authApi.tsx:217-219 | signing out leaves no signed-in user |
| AuthApi.EmailUserRecord | src/core/api/authApi.tsx:21-27 | the saved user is not approved, has provider `email`, the display name just set and the address or `''`, and no picture |
| AuthApi.ProviderUserRecord | src/core/api/authApi.tsx:51-58 | the saved user is not approved, has the provider, and name, address and picture each defaulting to `''` |
| AuthApi.RegisterWithEmail | src/core/api/authApi.tsx:12-31 | a refused sign-up throws its code and changes nothing; an accepted one saves the not-approved user under a fresh key and ends signed out |
| AuthApi.RegisterWithProvider | src/core/api/authApi.tsx:37-62 | an address already stored throws `auth/email-already-in-use` before signing out, so the session stays signed in and nothing is saved; otherwise the not-approved user is saved and the session signed out |
| AuthApi.IsApproved | src/core/api/authApi.tsx:139 | a stored user with `approved: true` is let in; one whose `approved` is missing, `null` or `false` is not |
| AuthApi.SignInWithProvider | src/core/api/authApi.tsx:118-161 | a stored not-approved user is signed out with `auth/user-not-approved`; an approved one stays signed in; an unknown address is saved not approved, signed out, with `auth/user-just-created` |
| AuthApi.SignInWithEmail | src/core/api/authApi.tsx:227-252 | a stored not-approved user is signed out with `auth/user-not-approved`; otherwise, stored or not, the user stays signed in and nothing is saved |
| AuthApi.CurrUser | src/core/api/authApi.tsx:275-285 | none when signed out; otherwise the name and address, each defaulting to `''` |
| AuthApi.SavedUserIsPending | src/core/api/authApi.tsx:148-159 | a user just saved by a registration or first sign-in is the one found by its address, and it is not approved, so the next sign-in with it is refused |
| Login.LoginValidIff | src/core/components/account/Login.tsx:28-43 | the login form is valid exactly when the address matches the e-mail pattern and the trimmed password has at least 6 characters |
| Login.ErrorMessage | src/core/components/account/Login.tsx:95-117 | no error text exactly for the just-created and not-approved codes; the generic text exactly for the codes no case names |
| Login.Dispatch | src/core/components/account/Login.tsx:95-117 | the error text is set exactly for the codes that have a message, and to that message |
| Login.SignInEffects | src/core/components/account/Login.tsx:88-119 | `login()` runs exactly when the sign-in did not throw; on a throw `onCatch` runs first, then the dispatch on the code |
| Login.MessagesDistinct | src/core/components/account/Login.tsx:96-110 | the four codes with their own message get four different messages, none of them the generic one |
| Login.OtherCodesGeneric | src/core/components/account/Login.tsx:114-116 | every other code, apart from `user-just-created` and `user-not-approved`, gets the generic message |
| Login.LoginForm.constructor | src/core/components/account/Login.tsx:61-63 | no error, no alert, no success dialog |
| Login.LoginForm.SignInUser | src/core/components/account/Login.tsx:88-119 | after a sign-in that did not throw only `login()` runs; otherwise the error text, the alert or the success dialog is set as the dispatch says, and nothing else changes |
| PageEditor.KeepSlugChars | src/core/components/pages/PageCreateOrEdit.tsx:162 | the first step keeps exactly the ASCII letters, digits and spaces, in order |
| PageEditor.HyphenateSpaces | src/core/components/pages/PageCreateOrEdit.tsx:163 | every white-space character becomes `-`, every other character is kept |
| PageEditor.Hyphenated | src/core/components/pages/PageCreateOrEdit.tsx:162-163 | after the first two steps only letters, digits and hyphens remain |
| PageEditor.CollapseHyphens | src/core/components/pages/PageCreateOrEdit.tsx:164 | every run of hyphens becomes one: no `--` remains, no new character appears and the first character is kept |
| PageEditor.StripLeadingHyphens | src/core/components/pages/PageCreateOrEdit.tsx:165 | a suffix of the input that does not start with `-` |
| PageEditor.StripTrailingHyphens | src/core/components/pages/PageCreateOrEdit.tsx:165 | a prefix of the input that does not end with `-` |
| PageEditor.StripHyphens | src/core/components/pages/PageCreateOrEdit.tsx:165 | neither end is `-`, no new character appears, and no `--` is introduced |
| PageEditor.LowerCharFacts | src/core/components/pages/PageCreateOrEdit.tsx:166 | lower-casing keeps hyphens and turns letters and digits into lower-case letters and digits |
| PageEditor.Slug | src/core/components/pages/PageCreateOrEdit.tsx:158-167 | the permalink proposed for a title has only `[a-z0-9-]`, no `--`, no hyphen at either end, and is no longer than the title |
| PageEditor.NoHyphenCollapse | src/core/components/pages/PageCreateOrEdit.tsx:164 | a string without hyphens is left as it is by the collapse |
| PageEditor.LowerKeepsLowerAlnum | src/core/components/pages/PageCreateOrEdit.tsx:166 | lower-case letters and digits are unchanged by `toLowerCase` |
| PageEditor.SlugKeepsLowerAlnum | src/core/components/pages/PageCreateOrEdit.tsx:161-166 | a title of lower-case letters and digits is its own slug |
| PageEditor.SlugOfKept | src/core/components/pages/PageCreateOrEdit.tsx:162 | the slug depends only on the characters the first step keeps |
| PageEditor.KeepAround | src/core/components/pages/PageCreateOrEdit.tsx:162 | a character outside the kept set between two kept strings is deleted |
| PageEditor.SlugDropsTypedHyphen | src/core/components/pages/PageCreateOrEdit.tsx:162 | the slug is not idempotent: a hyphen between two words is deleted, not kept, so `my-page` becomes `mypage` |
| PageEditor.MenuDetails | src/core/components/pages/PageCreateOrEdit.tsx:95-106 | position 0 when no display option is chosen; `pageTitle` and `permalink` copy the page's; parent fields only when a parent option is selected |
| PageEditor.MenuItemRecord | src/core/models/CMS.tsx:35-44 | a menu item as a stored object carries its title, position, sort, page title and permalink |
| PageEditor.PageDocument | src/core/components/pages/PageCreateOrEdit.tsx:89-102 | the page's id is the route id or `''`, with its title, permalink and menu details |
| PageEditor.PageFormValidIff | src/core/components/pages/PageCreateOrEdit.tsx:89-108 | the page can be saved exactly when title, permalink and menu title are non-empty and a display option other than 0 is chosen |
| PageEditor.NoDisplayIsInvalid | src/core/components/pages/PageCreateOrEdit.tsx:97 | without a display option the page is reported under `menuDetails.position` |
| PageEditor.ParentOptions | src/core/components/pages/PageCreateOrEdit.tsx:113-116 | "No parent" with value `''` first, then every menu item except those of the edited page, in menu order |
| PageEditor.ParentOptionsExcludeSelf | src/core/components/pages/PageCreateOrEdit.tsx:113-116 | the edited page is never offered as its own parent, and every other menu item is |
| PageEditor.ReplaceMenuItem | src/core/components/pages/PageCreateOrEdit.tsx:128-129 | the page's menu details last, preceded by exactly the items of other pages |
| PageEditor.Submit | src/core/components/pages/PageCreateOrEdit.tsx:119-134 | the page is upserted (saved under a fresh key without a route id, merged otherwise); its menu details get `pageId` = the new key or the route id and replace the page's old items at the end of the menu; the CMS's other lists are unchanged |
| PageList.FilterPages | src/core/components/pages/PageList.tsx:71-77 | the menu items whose page title or menu title contains the query, ignoring case; every item for the empty query |
| PageList.WithoutPage | src/core/components/pages/PageList.tsx:44 | exactly the menu items of other pages, never more than before |
| PageList.LastOfPage | src/core/components/pages/PageList.tsx:58-61 | the toggle's item is a menu item of the page; there is none exactly when no item belongs to the page |
| PageList.TogglePosition | src/core/components/pages/PageList.tsx:62 | the new position is Top exactly when the page is shown and None exactly when it is hidden |
| PageList.Toggled | src/core/components/pages/PageList.tsx:58-67 | the page's last menu item first, with its position replaced by the new one, followed by exactly the other pages' items in menu order |
| PageList.TogglePatch | src/core/components/pages/PageList.tsx:64 | the toggle's payload carries only the id and the menu details |
| PageList.TogglePatchKeepsPage | src/core/components/pages/PageList.tsx:64-66 | merging the payload changes only the id and the menu position; every other field of the page and of its menu details is kept |
| PageList.WithoutPageAround | src/core/components/pages/PageList.tsx:44 | removing a page whose only item lies between other pages' items leaves those items in order |
| PageList.ToggleSingle | src/core/components/pages/PageList.tsx:58-67 | with one item for the page, the toggle moves it to the front and keeps the others in order |
| PageList.TogglePrefixStep | src/core/components/pages/PageList.tsx:58-62 | one more item of the scan joins the other pages' items, or becomes the page's last item |
| PageList.LastOfPageSkips | src/core/components/pages/PageList.tsx:58-61 | items of other pages after the last one of the page do not change which item the toggle uses |
| PageList.PageListView.constructor | src/core/components/pages/PageList.tsx:29-31 | the list starts with the whole menu, sharing the menu array, and nothing flagged |
| PageList.PageListView.ApplyFilter | src/core/components/pages/PageList.tsx:71-77 | the shown pages become the matching menu items, a new array no longer shared with the menu |
| PageList.PageListView.FlagToDelete | src/core/components/pages/PageList.tsx:34-37 | flags the given page and changes nothing else |
| PageList.PageListView.CancelDelete | src/core/components/pages/PageList.tsx:39 | clears the flag and changes nothing else |
| PageList.PageListView.ConfirmDelete | src/core/components/pages/PageList.tsx:41-50 | with a page flagged, its document is deleted, its menu items are dropped and the whole menu is shown again; the flag is cleared either way; the CMS's other lists are unchanged |
| PageList.PageListView.TogglePageDisplay | src/core/components/pages/PageList.tsx:52-69 | nothing for a missing id; otherwise the backend receives the new position and the page's item moves to the front of a new menu array with it, the shown list no longer sharing it; the CMS's other lists are unchanged |
| PageList.SplitOffPage | src/core/components/pages/PageList.tsx:55-61 | one pass over the menu yields the other pages' items in order and the last item of the page |
| PageList.PageListView.SortForDisplay | src/core/components/pages/PageList.tsx:80-81 | the shown pages are sorted by lower-cased menu title and are a permutation of what was shown; while the list shares the menu array, the CMS's menu becomes that same sorted order |
| PageList.TitleKey | src/core/components/pages/PageList.tsx:80-81 | the sort key `title.toLowerCase()`; `SortForDisplay` states the sorted order it gives |
| UserManagement.Matching | src/core/components/users/UserManagement.tsx:40-50 | the predicate holds of a user exactly when name, e-mail and approval all match |
| UserManagement.FilterUsers | src/core/components/users/UserManagement.tsx:40-50 | exactly the users whose name and e-mail contain the queries, ignoring case, and whose approval the status admits |
| UserManagement.StatusAdmitsIff | src/core/components/users/UserManagement.tsx:44-48 | All admits everyone; Approved exactly the approved users; NotApproved exactly the others |
| UserManagement.FilterIsSubsequence | src/core/components/users/UserManagement.tsx:40-50 | the filtered users are the loaded ones with some left out, the rest in their order |
| UserManagement.NoFilterShowsAll | src/core/components/users/UserManagement.tsx:40-50 | empty queries and status All show every user |
| UserManagement.UserManagementView.constructor | src/core/components/users/UserManagement.tsx:19-22 | nothing loaded, no users and nothing flagged |
| UserManagement.UserManagementView.OnSnapshot | src/core/components/users/UserManagement.tsx:25-32 | a snapshot replaces both lists and marks the users as loaded |
| UserManagement.UserManagementView.ApplyFilter | src/core/components/users/UserManagement.tsx:40-50 | the shown users become the filtered users of the last snapshot, a subsequence of them |
| UserManagement.UserManagementView.UpdateUserApproval | src/core/components/users/UserManagement.tsx:35-38 | nothing for a missing id; otherwise the approval is merged into the user's document and nothing else changes |
| UserManagement.UserManagementView.Remove | src/core/components/users/UserManagement.tsx:52-55 | nothing for a missing id; otherwise exactly the user's document is deleted |
| UserManagement.UserManagementView.FlagToDelete | src/core/components/users/UserManagement.tsx:57-60 | flags the given user and changes nothing else |
| UserManagement.UserManagementView.CancelDelete | src/core/components/users/UserManagement.tsx:62 | clears the flag and changes nothing else |
| UserManagement.UserManagementView.ConfirmDelete | src/core/components/users/UserManagement.tsx:64-67 | removes the flagged user, if any, and clears the flag |
| PageReorder.KeysOf | src/core/components/pages/PageReorder.tsx:77-80 | the group keys, each listed once |
| PageReorder.Members | src/core/components/pages/PageReorder.tsx:78 | exactly the items whose parent key (their `parentId`, or the top level) is the group's |
| PageReorder.GroupKey | src/core/components/pages/PageReorder.tsx:78 | `i.parentId \|\| '__top_level__'`; `Members`, `MembersSnoc` and `BucketsMeaning` state how it groups the items |
| PageReorder.AddToBucket | src/core/components/pages/PageReorder.tsx:78-81 | one step of the bucketing adds the item's key and leaves every other bucket as it was |
| PageReorder.MembersSnoc | src/core/components/pages/PageReorder.tsx:78 | appending an item extends its own group's members and no other group's |
| Lists.MapSnoc | src/core/components/pages/PageReorder.tsx:81 | mapping an extended list extends the mapped list by the new element's image |
| PageReorder.Buckets | src/core/components/pages/PageReorder.tsx:75-82 | after the `forEach` every visited item's group key has a bucket; `BucketsMeaning` states the buckets' contents |
| PageReorder.BucketsMeaning | src/core/components/pages/PageReorder.tsx:75-82 | a bucket exists exactly for the keys that occur; it holds the first member's parent title and one row per member, in order |
| PageReorder.Assemble | src/core/components/pages/PageReorder.tsx:86-90 | one group per name, in the names' order, `Top Menu` for the top level and the parent title followed by ` (Sub-menu)` otherwise |
| PageReorder.DescendingNames | src/core/components/pages/PageReorder.tsx:84-85 | the bucket names sorted descending, a permutation of them |
| PageReorder.StrictlyDescending | src/core/components/pages/PageReorder.tsx:84-85 | distinct names sorted descending are strictly descending |
| PageReorder.MapMenuItems | src/core/components/pages/PageReorder.tsx:72-91 | one group per parent key, every item's key present, keys strictly descending, each group titled from its first member's parent and holding its members' rows in `sort` order |
| PageReorder.GroupTitle | src/core/components/pages/PageReorder.tsx:88 | `Top Menu` for the top level, otherwise the parent title followed by ` (Sub-menu)`, `undefined` when missing; `Assemble` and `MapMenuItems` state the titled groups |
| PageReorder.AssembledGroups | src/core/components/pages/PageReorder.tsx:84-90 | assembling the buckets under the sorted names gives exactly those groups |
| PageReorder.GroupMembersOrdered | src/core/components/pages/PageReorder.tsx:75-82 | within a group the rows follow `sort` upwards and are exactly the items of that group |
| PageReorder.ArrayMove | src/core/components/pages/PageReorder.tsx:105 | the moved row lands at the new index, and with it taken out the other rows are exactly as before with the old index taken out: every other row keeps its relative order |
| PageReorder.FindEntry | src/core/components/pages/PageReorder.tsx:109 | the first row with the page's id, or -1 exactly when no row has it |
| PageReorder.SortPatches | src/core/components/pages/PageReorder.tsx:108-113 | one backend patch per menu item found in the moved group, carrying its id and its row number, and no others |
| PageReorder.Resorted | src/core/components/pages/PageReorder.tsx:108-112 | only `sort` changes: an item found in the moved group takes the index of its first row, an item not in it keeps its sort |
| PageReorder.SortPatch | src/core/components/pages/PageReorder.tsx:111 | the patch `{id, menuDetails: {sort}}`; what it does to a stored page is `SortPatchMerged` |
| PageReorder.SortPatchMerged | src/core/components/pages/PageReorder.tsx:111 | merged into a stored page whose `menuDetails` is an object, the patch sets `sort` and keeps the other menu details and every other field but `id` |
| PageReorder.SortPatchesInOrder | src/core/components/pages/PageReorder.tsx:108-113 | the patches are exactly those of the menu items found in the moved group, one each and in menu order, each setting `menuDetails.sort` to the item's row in the group |
| PageReorder.ResortAll | src/core/components/pages/PageReorder.tsx:108-113 | the `forEach` over the menu: every item gets `Resorted` against the moved group and the patches sent are exactly `SortPatches` |
| PageReorder.ResortedSort | src/core/components/pages/PageReorder.tsx:109-112 | an item at row `k` of the moved group gets `sort` = `k`; an item outside the group keeps its `sort` |
| PageReorder.ReorderView.constructor | src/core/components/pages/PageReorder.tsx:100 | the screen starts with the groups of the menu items that are shown somewhere |
| PageReorder.ReorderView.OnSortEnd | src/core/components/pages/PageReorder.tsx:103-115 | only the dragged group changes, by the move; every menu item gets its row number in that group as `sort` or keeps it, and one patch is sent per item found; the CMS's other lists are unchanged |
| Header.Step | src/app/components/Header.tsx:44-51 | a top-level item adds its page key, a child adds no key; every entry other than the one touched is kept |
| Header.PrefixFacts | src/app/components/Header.tsx:42-48 | dropping the last item keeps top-level items first and every parent present; a top-level last item means all items are top-level |
| Header.NoChildren | src/app/components/Header.tsx:48 | a list of top-level items holds no child of any key |
| Header.StepTop | src/app/components/Header.tsx:47 | a top-level item among top-level items keeps the tree's meaning: the first item with a key opens its entry, later ones change nothing |
| Header.StepChild | src/app/components/Header.tsx:48 | a child whose parent entry exists is appended to that entry's children and keeps the tree's meaning |
| Header.Tree | src/app/components/Header.tsx:44-51 | once the `reduce` has visited a top-level item, its page key has an entry |
| Header.TreeMeaning | src/app/components/Header.tsx:44-51 | with top-level items first and every parent present, there is an entry exactly for each top-level key, holding its first top-level item and all its children in order |
| Header.FoldTree | src/app/components/Header.tsx:43-50 | the `reduce` loop builds exactly `Tree` of the sorted menu and records each key it opens once |
| Header.ParentsPresentPermutation | src/app/components/Header.tsx:42-43 | reordering the menu keeps every child's parent present |
| Header.SortedTopLevelFirst | src/app/components/Header.tsx:42-43 | sorting by parent key puts every top-level item before every child |
| Header.EntriesOf | src/app/components/Header.tsx:89-90 | the entries listed under the given names, in that order |
| Header.BySort | src/app/components/Header.tsx:91 | the entries sorted by their item's `sort`, a permutation of them |
| Header.TreeEntries | src/app/components/Header.tsx:89-90 | each entry read from the tree is the entry of its key |
| Header.KeysStayDistinct | src/app/components/Header.tsx:89-91 | after sorting, no two entries share a key |
| Header.EntriesListTree | src/app/components/Header.tsx:89-91 | the sorted entries list every top-level key once, each with its item and children |
| Header.BuildMenu | src/app/components/Header.tsx:42-91 | the menu is sorted in place by parent key as a permutation, the rest of the CMS is unchanged, and the entries come out in `sort` order, one per top-level key with its first item and all its children |
| Header.SortedChildren | src/app/components/Header.tsx:114-115 | a dropdown's children sorted by `sort`, a permutation of them |
| Header.NavOf | src/app/components/Header.tsx:95-128 | a link to `/` + permalink exactly when the entry has no children, otherwise a dropdown with one link per child, always titled with the item's title |
| Header.Visible | src/app/components/Header.tsx:93 | an entry is rendered unless its position is None or Bottom; `Render` and `RenderInSortOrder` state what is shown |
| Header.Render | src/app/components/Header.tsx:92-129 | exactly the entries whose position is neither None nor Bottom are rendered, each as its link or dropdown, in the order of the entries |
| Header.RenderInSortOrder | src/app/components/Header.tsx:89-129 | on the entries as the menu lists them, the rendered elements are the visible entries' links and dropdowns, one each, ascending by `sort` |
| Header.DropdownLinks | src/app/components/Header.tsx:113-125 | a dropdown links every child, by its title to `/` + its permalink, and nothing else, in the order of the children sorted ascending by `sort` |
| Header.DropdownInSortOrder | src/app/components/Header.tsx:113-124 | the dropdown's `j`-th link is that of the `j`-th child once the children are rearranged ascending by `sort` |
| Home.ItemIds | src/app/components/Home.tsx:20-27 | at most three page ids, each that of a menu item whose permalink starts with the section's prefix |
| Home.ItemIdsArePrefix | src/app/components/Home.tsx:20-27 | the ids are those of the matching items in menu order, cut at three: all of them when there are fewer |
| Home.WithPrefix | src/app/components/Home.tsx:21 | `permalink.startsWith(prefix)`; `ItemIdsArePrefix` and `ItemIdsEmptyIff` state the ids it selects |
| Home.ItemIdsEmptyIff | src/app/components/Home.tsx:20-27 | there are no ids exactly when no menu item's permalink has the prefix |
| Home.SectionState | src/app/components/Home.tsx:101-142 | a section is left out exactly when nothing is loaded and it has no ids; it shows placeholders exactly when nothing is loaded but ids exist; otherwise it shows the loaded pages |
| Home.SectionOmittedIff | src/app/components/Home.tsx:101-142 | a section is left out exactly when nothing is loaded for it and no menu item has its prefix; with matching items but nothing loaded the placeholders stay |
| EventsPage.ByDate | src/app/components/Events.tsx:23-24 | a copy of the events sorted by date, a permutation of them |
| EventsPage.InWindow | src/app/components/Events.tsx:25 | `startAt <= date <= endAt`; `ShownEvents` and `ShownAreEarliest` state the events it keeps |
| EventsPage.ShownEvents | src/app/components/Events.tsx:21-26 | at most five events, all from the list and inside the day window, ascending by date |
| EventsPage.SortedCutEarliest | src/app/components/Events.tsx:24-26 | in a date-sorted list, an event past the cut is no earlier than any kept one |
| EventsPage.ShownAreEarliest | src/app/components/Events.tsx:23-26 | no event of the window is passed over for a later one, and with fewer than five shown every event of the window is shown |
| EventsPage.RunLen | src/app/components/Events.tsx:28 | the length of the longest run at the start of the text whose characters all satisfy the class |
| EventsPage.TagLen | src/app/components/Events.tsx:28 | a tag match starts with `<`, ends with `>` and has at least three characters |
| EventsPage.EntityLen | src/app/components/Events.tsx:28 | an entity match starts with `&`, ends with `;` and has at least three characters |
| EventsPage.StripTags | src/app/components/Events.tsx:28 | the share text is no longer than the description and has no character the description lacks |
| EventsPage.PlainPrefixKept | src/app/components/Events.tsx:28 | text without `<` and `&` in front of the rest is kept as it is |
| EventsPage.PlainTextKept | src/app/components/Events.tsx:28 | a description without `<` and `&` is its own share text |
| EventsPage.RunOfName | src/app/components/Events.tsx:28 | the run of a character class over a tag or entity name ends exactly where the name does |
| EventsPage.OpeningTagRemoved | src/app/components/Events.tsx:28 | `<name>` is removed as a whole and the scan goes on after it |
| EventsPage.TagRemoved | src/app/components/Events.tsx:28 | the text on either side of a removed tag is joined |
| EventsPage.ClosingTagRemovedHere | src/app/components/Events.tsx:28 | `</name>` is removed as a whole and the scan goes on after it |
| EventsPage.ClosingTagRemoved | src/app/components/Events.tsx:28 | the text on either side of a removed closing tag is joined |
| EventsPage.EntityRemovedHere | src/app/components/Events.tsx:28 | a named entity `&name;` of letters is removed as a whole and the scan goes on after it |
| EventsPage.EntityRemoved | src/app/components/Events.tsx:28 | the text on either side of a removed entity is joined |
| EventsPage.KeptFirst | src/app/components/Events.tsx:28 | where no tag or entity starts, the character is kept |
| EventsPage.AttributedTagLen | src/app/components/Events.tsx:28 | a tag with attributes does not match the pattern |
| EventsPage.TagWithAttributesKept | src/app/components/Events.tsx:28 | `<name attrs>` keeps its `<`, its name and the space |
| EventsPage.StripTagsNotIdempotent | src/app/components/Events.tsx:28 | one pass can leave a tag behind: `<<name>name>` gives `<name>` |
| EventsPage.TwitterTitle | src/app/components/Events.tsx:45 | the tweet text has at most 254 characters and is the whole share text when that has at most 250 |
| EventsPage.Zeros | src/app/components/Events.tsx:20 | exactly `k` zero digits |
| EventsPage.Padded | src/app/components/Events.tsx:20 | at least `width` characters, all decimal digits |
| EventsPage.NatToStringValue | src/app/components/Events.tsx:20 | the decimal digits of a number read back as that number |
| EventsPage.LeadingZerosValue | src/app/components/Events.tsx:20 | leading zeros do not change the value of a digit string |
| EventsPage.ZerosValue | src/app/components/Events.tsx:20 | a string of zeros reads as 0 |
| EventsPage.PaddedValue | src/app/components/Events.tsx:20 | padded digits read back as the number they came from |
| EventsPage.Heading | src/app/components/Events.tsx:20 | the heading is `Next Events` exactly when no day is chosen; a chosen day gives `Events in ` and at least ten more characters |
| EventsPage.HeadingOfDay | src/app/components/Events.tsx:20 | the heading of a chosen day is `Events in DD/MM/YYYY`, 20 characters, each field reading back as the day's part |
| EventsPage.NatToStringShort | src/app/components/Events.tsx:20 | a number below 10 to the `width` has at most `width` digits |
| EventsEditor.Description | src/core/components/events/EventsCreateOrEdit.tsx:87-88 | the description is empty exactly when the editor is empty or holds only the empty paragraph; otherwise it is the editor's HTML |
| EventsEditor.EventRecord | src/core/components/events/EventsCreateOrEdit.tsx:89 | the object `validate` reads carries the event's date, title and description |
| EventsEditor.EventValidIff | src/core/components/events/EventsCreateOrEdit.tsx:24-37 | an event validates exactly when its date is not 0 and its title and description are not empty |
| EventsEditor.ReplacedFile | src/core/components/events/EventsCreateOrEdit.tsx:104-107 | the deleted file is a non-empty path, different from the submitted one, of a listed event with the submitted id; nothing is deleted for a new id |
| EventsEditor.ReplacedFileOfUniqueId | src/core/components/events/EventsCreateOrEdit.tsx:104-107 | with one event per id, the deleted file is exactly the replaced event's changed, non-empty image path |
| EventsEditor.EventEditor.constructor | src/core/components/events/EventsCreateOrEdit.tsx:52-58 | the inputs start empty, the editor with its empty paragraph |
| EventsEditor.EventEditor.Current | src/core/components/events/EventsCreateOrEdit.tsx:89 | the event the inputs describe has the route id or a fresh one, the inputs' fields, and `''` for a missing download URL |
| EventsEditor.EventEditor.FormValidIff | src/core/components/events/EventsCreateOrEdit.tsx:87-91 | the form is valid exactly when a date is chosen and the title and the editor's content are filled |
| EventsEditor.EventEditor.Sync | src/core/components/events/EventsCreateOrEdit.tsx:65-84 | a new route id loads the listed event with that id into the inputs, when there is one; leaving edit mode clears them; the same id changes nothing |
| EventsEditor.EventEditor.OnUpload | src/core/components/events/EventsCreateOrEdit.tsx:135-138 | an upload sets the path and the download URL, an empty URL read as none |
| EventsEditor.EventEditor.ClearedIsInvalid | src/core/components/events/EventsCreateOrEdit.tsx:87-91 | an editor holding only the empty paragraph never validates |
| EventsEditor.EventEditor.Submit | src/core/components/events/EventsCreateOrEdit.tsx:98-114 | the replaced image is deleted when it changed, and the event goes first in the list with every other event of its id dropped, the rest in order |
| EventsEditor.SubmitKeepsIdsUnique | src/core/components/events/EventsCreateOrEdit.tsx:103-109 | after a submit the list still has one event per id, the submitted one first |
| EventsList.FilterEvents | src/core/components/events/EventsList.tsx:56-63 | exactly the events whose title contains the query, ignoring case, and that fall inside the chosen day, or all days when none is chosen |
| EventsList.ResetShowsAll | src/core/components/events/EventsList.tsx:51 | the filter reset shows every event |
| EventsList.NotFlagged | src/core/components/events/EventsList.tsx:48 | the predicate holds exactly of events with another id |
| EventsList.WithoutEvent | src/core/components/events/EventsList.tsx:48 | exactly the events with another id, never more than before |
| EventsList.FileToDeleteAsWritten | src/core/components/events/EventsList.tsx:43-46 | as written, the deleted file is a non-empty path of an event whose id is NOT the flagged one |
| EventsList.AsWrittenDeletesOtherFile | src/core/components/events/EventsList.tsx:43-48 | with the flagged event second, the first event's file is deleted while that event stays listed |
| EventsList.AsWrittenDeletesKeptEventsFile | src/core/components/events/EventsList.tsx:43-48 | as written, the deleted file always belongs to an event that stays listed |
| EventsList.Flagged | src/core/components/events/EventsList.tsx:43 | the corrected predicate holds exactly of events with the flagged id |
| EventsList.FileToDelete | src/core/components/events/EventsList.tsx:43-46 | corrected, the deleted file is a non-empty path of an event with the flagged id; nothing when no event has it |
| EventsList.DeletesRemovedEventsFile | src/core/components/events/EventsList.tsx:43-48 | corrected, the deleted file belongs to an event the delete removes |
| EventsList.FlaggedImageDeleted | src/core/components/events/EventsList.tsx:43-46 | corrected, with one event per id, the flagged event's image is the file deleted |
| EventsList.EventListView.constructor | src/core/components/events/EventsList.tsx:29-31 | the list starts with every event and nothing flagged |
| EventsList.EventListView.FlagToDelete | src/core/components/events/EventsList.tsx:34-37 | flags the given event and changes nothing else |
| EventsList.EventListView.CancelDelete | src/core/components/events/EventsList.tsx:39 | clears the flag and changes nothing else |
| EventsList.EventListView.ApplyFilter | src/core/components/events/EventsList.tsx:56-63 | the shown events become the matching ones |
| EventsList.EventListView.ConfirmDelete | src/core/components/events/EventsList.tsx:41-54 | with an event flagged, its image is deleted (corrected), every event with its id is removed and all remaining events are shown; the flag is cleared either way |
| PictureEditor.PictureRecord | src/core/components/gallery/UploadOrEditPicture.tsx:82 | the object `validate` reads carries the picture's title and download URL |
| PictureEditor.PictureValidIff | src/core/components/gallery/UploadOrEditPicture.tsx:21-30 | a picture validates exactly when its title and download URL are not empty |
| PictureEditor.HasId | src/core/components/gallery/UploadOrEditPicture.tsx:97 | the predicate holds exactly of pictures with the given id |
| PictureEditor.ReplacedFile | src/core/components/gallery/UploadOrEditPicture.tsx:97-100 | the deleted file is the path, different from the submitted one and possibly empty, of a listed picture with the submitted id; nothing is deleted for a new id |
| PictureEditor.ReplacedFileOfUniqueId | src/core/components/gallery/UploadOrEditPicture.tsx:97-100 | with one picture per id, the deleted file is exactly the replaced picture's changed path |
| PictureEditor.PictureEditorView.constructor | src/core/components/gallery/UploadOrEditPicture.tsx:45-48 | the inputs start empty |
| PictureEditor.PictureEditorView.Current | src/core/components/gallery/UploadOrEditPicture.tsx:82 | the picture the inputs describe has the route id or a fresh one, the inputs' fields, and `''` for a missing download URL |
| PictureEditor.PictureEditorView.FormValidIff | src/core/components/gallery/UploadOrEditPicture.tsx:82-84 | the form is valid exactly when the title is filled and a download URL is present and not empty |
| PictureEditor.PictureEditorView.StaleUpload | src/core/components/gallery/UploadOrEditPicture.tsx:52-58 | the cleanup deletes the current path only when the listed picture being edited stores another path |
| PictureEditor.PictureEditorView.SetPath | src/core/components/gallery/UploadOrEditPicture.tsx:52-58 | a changed path first runs the previous path's cleanup; the same path runs nothing |
| PictureEditor.PictureEditorView.Sync | src/core/components/gallery/UploadOrEditPicture.tsx:64-79 | a new route id loads the listed picture with that id, when there is one; leaving edit mode clears the inputs; a changed path runs the cleanup |
| PictureEditor.PictureEditorView.Uploaded | src/core/components/gallery/UploadOrEditPicture.tsx:134-138 | an upload sets the path, through the cleanup, and the download URL |
| PictureEditor.PictureEditorView.Submit | src/core/components/gallery/UploadOrEditPicture.tsx:91-107 | the replaced file is deleted when the path changed, and the picture goes first in the gallery with every other picture of its id dropped, the rest in order |
| PictureEditor.SubmitKeepsIdsUnique | src/core/components/gallery/UploadOrEditPicture.tsx:96-102 | after a submit the gallery still has one picture per id, the submitted one first |
| PicturesList.NotAt | src/core/components/gallery/PicturesList.tsx:38 | the predicate holds exactly of pictures stored at another path |
| PicturesList.WithoutPath | src/core/components/gallery/PicturesList.tsx:38 | exactly the pictures stored at another path, never more than before |
| PicturesList.PictureListView.constructor | src/core/components/gallery/PicturesList.tsx:28-30 | the gallery starts with every picture and nothing flagged |
| PicturesList.PictureListView.Remove | src/core/components/gallery/PicturesList.tsx:48 | a picture is flagged by its file path, and nothing else changes |
| PicturesList.PictureListView.CancelDelete | src/core/components/gallery/PicturesList.tsx:33 | clears the flag and changes nothing else |
| PicturesList.PictureListView.ApplyFilter | src/core/components/gallery/PicturesList.tsx:46 | the whole gallery is shown again |
| PicturesList.PictureListView.ConfirmDelete | src/core/components/gallery/PicturesList.tsx:35-44 | with a path flagged, that file is deleted, every picture stored at it is removed and the whole gallery is shown; the flag is cleared either way |
| PicturesList.PictureListView.Layout | src/core/components/gallery/PicturesList.tsx:52-53 | exactly four and two columns, each layout holding every picture once, with column lengths differing by at most one and never growing left to right |
| PodcastEditor.PodcastRecord | src/core/components/podcasts/PodcastCreateOrEdit.tsx:56 | the object `validate` reads carries the podcast's id, title, embed and publication time |
| PodcastEditor.PodcastRefValidIff | src/core/components/podcasts/PodcastCreateOrEdit.tsx:56-58 | a podcast validates exactly when its title and embed are not empty |
| PodcastEditor.HasId | src/core/components/podcasts/PodcastCreateOrEdit.tsx:40 | the predicate holds exactly of podcasts with the given id |
| PodcastEditor.PodcastEditorView.constructor | src/core/components/podcasts/PodcastCreateOrEdit.tsx:27-30 | empty title and embed, published now |
| PodcastEditor.PodcastEditorView.Current | src/core/components/podcasts/PodcastCreateOrEdit.tsx:56 | the podcast the inputs describe has the route id or a fresh one and the inputs' fields |
| PodcastEditor.PodcastEditorView.FormValidIff | src/core/components/podcasts/PodcastCreateOrEdit.tsx:56-58 | the form is valid exactly when the title and the embed are filled |
| PodcastEditor.PodcastEditorView.Sync | src/core/components/podcasts/PodcastCreateOrEdit.tsx:38-53 | a new route id copies the listed podcast with that id, when there is one; leaving edit mode resets to empty inputs published now; the same id changes nothing |
| PodcastEditor.PodcastEditorView.Submit | src/core/components/podcasts/PodcastCreateOrEdit.tsx:65-76 | the podcast goes first with every other podcast of its id dropped, the rest in order; the rest of the CMS is unchanged |
| PodcastEditor.SubmitKeepsIdsUnique | src/core/components/podcasts/PodcastCreateOrEdit.tsx:70-71 | after a submit the list still has one podcast per id |
| PodcastList.TitleMatching | src/core/components/podcasts/PodcastList.tsx:51-53 | the predicate holds exactly of podcasts whose title contains the query, ignoring case |
| PodcastList.FilterPodcasts | src/core/components/podcasts/PodcastList.tsx:50-54 | exactly the podcasts whose title contains the query, ignoring case, never more than before |
| PodcastList.EmptyQueryShowsAll | src/core/components/podcasts/PodcastList.tsx:45 | the filter reset shows every podcast |
| PodcastList.NotFlagged | src/core/components/podcasts/PodcastList.tsx:42 | the predicate holds exactly of podcasts with another id |
| PodcastList.WithoutPodcast | src/core/components/podcasts/PodcastList.tsx:42 | exactly the podcasts with another id, never more than before |
| PodcastList.PodcastListView.constructor | src/core/components/podcasts/PodcastList.tsx:28-29 | the list starts with every podcast, sharing the podcasts array, and nothing flagged |
| PodcastList.PodcastListView.FlagToDelete | src/core/components/podcasts/PodcastList.tsx:33-36 | flags the given podcast and changes nothing else |
| PodcastList.PodcastListView.CancelDelete | src/core/components/podcasts/PodcastList.tsx:38 | clears the flag and changes nothing else |
| PodcastList.PodcastListView.ApplyFilter | src/core/components/podcasts/PodcastList.tsx:50-54 | the shown podcasts become the matching ones, a new array no longer shared with the CMS |
| PodcastList.PodcastListView.ConfirmDelete | src/core/components/podcasts/PodcastList.tsx:40-48 | with a podcast flagged, every podcast with its id is removed and all remaining podcasts are shown, with no file deleted; the flag is cleared either way |
| PodcastList.PodcastListView.SortForDisplay | src/core/components/podcasts/PodcastList.tsx:58-59 | the shown podcasts are sorted newest first and are a permutation of what was shown; while the list shares the podcasts array, the CMS's podcasts become that same sorted order |
| PodcastEpisodes.PlayerOf | src/app/components/PodcastEpisodes.tsx:29-33 | an embed containing `iframe` is rendered as its own HTML; anything else is loaded by a player at the embed followed by `&autoPlay=false` |
| PodcastEpisodes.EpisodeOf | src/app/components/PodcastEpisodes.tsx:29-50 | each episode is keyed by the podcast id, played by its embed, and has its time and title heading exactly when titles are shown |
| PodcastEpisodes.Shown | src/app/components/PodcastEpisodes.tsx:28 | the first `numberOfItems` podcasts, or all of them when fewer or when no count is given |
| PodcastEpisodes.ShownAreNewest | src/app/components/PodcastEpisodes.tsx:26-28 | every shown episode is at least as new as every episode left out |
| PodcastEpisodes.Render | src/app/components/PodcastEpisodes.tsx:18-55 | the CMS's podcasts are sorted in place newest first, as a permutation, and the episodes are the first ones of that order |
| FileList.Matching | src/core/components/file/FileListAndUpload.tsx:53-56 | the predicate holds exactly of files whose name and extension match |
| FileList.FilterFiles | src/core/components/file/FileListAndUpload.tsx:52-57 | exactly the files whose name contains the query, ignoring case, and whose extension is the chosen one, any for the empty choice |
| FileList.ResetShowsAll | src/core/components/file/FileListAndUpload.tsx:47 | the filter reset shows every file |
| FileList.NotAt | src/core/components/file/FileListAndUpload.tsx:44 | the predicate holds exactly of files stored at another path |
| FileList.WithoutPath | src/core/components/file/FileListAndUpload.tsx:44 | exactly the files stored at another path, never more than before |
| FileList.UploadedFile | src/core/components/file/FileListAndUpload.tsx:66-74 | the new entry has the file's name, its extension as `getExtension` reads it, the path `/files/` + name, and its URL or `''` |
| FileList.UploadTwiceKeepsBoth | src/core/components/file/FileListAndUpload.tsx:69-74 | uploading the same name twice lists two entries with the same path |
| FileList.FileListView.constructor | src/core/components/file/FileListAndUpload.tsx:28-31 | the list starts with every file, nothing flagged and no upload running |
| FileList.FileListView.FlagToDelete | src/core/components/file/FileListAndUpload.tsx:34-37 | flags the given path and changes nothing else |
| FileList.FileListView.CancelDelete | src/core/components/file/FileListAndUpload.tsx:39 | clears the flag and changes nothing else |
| FileList.FileListView.ApplyFilter | src/core/components/file/FileListAndUpload.tsx:52-57 | the shown files become the matching ones |
| FileList.FileListView.ConfirmDelete | src/core/components/file/FileListAndUpload.tsx:41-50 | with a path flagged, that file is deleted, every entry stored at it is removed and the whole list is shown; the flag is cleared either way |
| FileList.FileListView.StartUpload | src/core/components/file/FileListAndUpload.tsx:59-63 | picking a file marks the upload as running and changes nothing else |
| FileList.FileListView.OnUploadEvent | src/core/components/file/FileListAndUpload.tsx:64-79 | on completion the upload stops, the new entry goes to the front of the CMS's files and the whole list is shown; any other status changes nothing |

## Left out

- Firebase itself: the authentication and storage clients, offline persistence, and upload progress (a floating-point percentage). The backend collection is the class `Repository.Collection`; a deleted file or a fire-and-forget patch is an `Effect`.
- Firestore's merge-write semantics are an assumption: payload fields overwrite stored ones, and absent fields are kept, also inside nested objects (`Repository.Merge`).
- Repository.Collection.Snapshot: documents come back in ascending key order by code point (`Js.CodePointLess`), Firestore's default for a query without `orderBy`.
- Repository.Collection.Delete: requires a non-empty id; Firestore throws on an empty document path, which is not modelled. The same holds for `Repository.Collection.SetMerge` and `Repository.Collection.FindById`.
- Repository.Collection.Upsert: requires a string `id` when the id is truthy; ids of other types are not modelled.
- Randomness and the clock: `uuid`, `uuidv4`, `nowEpoch` and the generated document keys are inputs (`freshId`, `newId`, `now`, `nowMs`), each fresh where the source relies on it.
- Time zones and moment.js: the day window `startAt`/`endAt` of the events page and the events filter are inputs, as is the default upper bound of the events page. Date formatting other than the `Events in DD/MM/YYYY` heading is not modelled.
- Numbers are integers: `NaN`, infinities and fractional values are not modelled. `isNaN` on strings follows the numeric-literal grammar of the ECMAScript `ToNumber` conversion.
- Js.Lower: only ASCII letters are lower-cased. JavaScript's `toLowerCase` also maps other letters (`É` to `é`) and can change the length (`İ` becomes two characters); the text filters `EventsList.FilterEvents`, `PodcastList.FilterPodcasts`, `FileList.FilterFiles`, `PageList.FilterPages` and `UserManagement.FilterUsers`, the slug and the file extension inherit this.
- Lengths count characters (code points): `trim().length` in `Validation.CheckMinLen` and `substr(0, len)` in `Utils.Truncate` count UTF-16 code units, so a character outside the Basic Multilingual Plane counts twice there and `substr` can split it; the model does not capture either.
- Validation.Prop: own fields of objects, `length` and index keys of strings and arrays are modelled; inherited properties (`toString`, `constructor`, array methods) read as `undefined`.
- CmsModel.Load: the source's `Default` object is shared, so a loaded CMS that keeps a default list holds the very array of `Default` and an in-place change to one shows in the other; the model copies values.
- Lists.SortBy: JavaScript's sort with the source's comparators, which never return 0, is modelled as some sorted permutation; the order of ties is not pinned.
- PageReorder.ArrayMove: `arrayMove` from react-sortable-hoc is not part of this model; it is taken to remove the element at the old index and insert it at the new one.
- PageReorder.ReorderView.OnSortEnd: requires the group and both indices to be in range, as the sortable list only reports rows it shows.
- PageList.PageListView.SortForDisplay: whether the shown list still shares `cms.menuItems` is tracked through the list's own operations only; when another component replaces the menu array while the list is open, the model still writes the sorted list back.
- PodcastList.PodcastListView.SortForDisplay: the same holds for `cms.podcasts`.
- PageList.PageListView.TogglePageDisplay: requires the page to have a menu item; the source dereferences a null item otherwise.
- Header.BuildMenu: requires every child's parent to have a top-level item; the source dereferences a missing entry otherwise. `Header.Step` leaves the tree unchanged in that case.
- Header.Tree: the source's `reduce` accumulator is a plain object, so a page key or parent id naming a property every object inherits (`constructor`, `toString`, `__proto__`) is already present there: a top-level item with that key opens no entry, and a child filed under it throws on `children.push`. The model's accumulator is a map in which such keys are ordinary; `Header.Step` and `Header.BuildMenu` inherit this.
- PageReorder.BucketsMeaning: the source's `map` is a plain object, so a parent id naming an inherited property (`constructor`, `toString`, `__proto__`) finds `map[id]` already truthy, opens no bucket, and `map[id].items.push` throws. In the model's map (`PageReorder.Buckets`, `PageReorder.AddToBucket`) such ids are ordinary keys and get a bucket.
- Utils.HashObj: `Object.getOwnPropertyNames` order is the order of the given property list.
- Utils.Chunk: requires at least one bucket; `chunk(arr, 0)` with a non-empty array crashes.
- PodcastEpisodes.Shown: `numberOfItems` is a natural number or absent (the `Number.MAX_VALUE` default); negative counts are not modelled.
- PictureEditor.PictureEditorView.SetPath: the cleanup reads the id the editor currently holds; the source's closure holds the id of the render in which the path was last set, which differs only when the route id changed and the path did not.
- PictureEditor: the cleanup that runs when the editor unmounts is not modelled.
- FileList.FileListView.OnUploadEvent: upload states other than complete change nothing; progress and errors are not modelled.
- The rich-text editor is modelled by the HTML it produces; an empty editor produces `<p><br></p>`.
- Home: the pages fetched for the news and messages ids are modelled only by their count, and the home page content fetched by permalink is not modelled.
- UserManagement.User: users delivered by the subscription are taken as well-typed records.
- AuthApi: a Firebase sign-in that succeeds without a current user afterwards (the `if (currUser)` guard) is not modelled. `sendPasswordReset`, `updatePassword`, `waitForAuth` and `isAuthenticated` are thin calls into Firebase and are not modelled.
- The forms whose only logic is a schema and a network call (PreRegister, ForgotPassword, ResetPassword, Contact, BecomeMember) are not modelled, nor the filter cards, layouts, routing, the dashboard, the public Page, Gallery and Podcasts components, or the Express server.
- Rendering: JSX, tooltips, the podcast player modal and the loading flags are not modelled; where a component's output matters it is a datatype (`Header.Nav`, `PodcastEpisodes.Episode`, `Home.Section`).
- Validation.IsEqualReadsPlainKey: `Js.StrictEquals` makes any two objects or arrays unequal, since the model's values carry no identity. The source's `===` holds when both reads yield the same reference: the model `{a: {}}` with the rule `isEqual('a')` on the field `a` passes in the source and fails in the model. Primitive values compare as in the source.

## Findings

| source | as written | input that shows it | evidently intended | confidence | as-written member | corrected member |
|---|---|---|---|---|---|---|
| src/core/components/events/EventsList.tsx:43 | `confirmDelete` looks up the event to delete with `e.id !== flaggedToDelete`, so it deletes the image of the first event that is NOT flagged | events `[first, flagged]` with different ids and `first.path` non-empty, `flagged.id` flagged: `first.path` is deleted while `first` stays listed | `e.id === flaggedToDelete`: delete the image of the event being removed | not executed | EventsList.AsWrittenDeletesOtherFile | EventsList.FileToDelete |
