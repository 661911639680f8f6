# Osusume content pipeline, modelled in Dafny

Osusume is a single-page catalog of media items (books, films, albums, …).
Each item is a Markdown file whose front matter gives its `type`, `title`,
`creator`, `year`, `importance` and `imageUrl`, and whose body is the item's
notes. This project models the data pipeline in `src/App.tsx` that sits
between the parsed files and the views:

1. **Loading** (`loadMarkdownFiles`): walk the discovered file paths in
   order, read and parse each file, skip every document whose `type`,
   `title` or `creator` is falsy (a console warning, then `continue`), and
   push an item for every other document, with `id` the file path and
   JavaScript `||` defaults for `year` (`""`), `importance` (`3`), `imageUrl`
   (`""`) and `notes` (`""`). A read or parse that throws ends the load
   before `setItems`, so nothing is published.
2. **Type filter** (`filteredItems`): `'all'` keeps the list, a media type
   keeps the items whose `type` is that string, in order.
3. **Creator ranking** (`groupedByCreator`): a dictionary from creator to
   items built in one pass, its entries sorted by item count (descending),
   ties by creator name (ascending).
4. **Tree view** (`TreeView`): a dictionary from type to items, and inside
   each type a dictionary from creator to items, keys in first-seen order.

Modules, one per concern:

- `JsValue` (js_value.dfy): attribute values as the YAML parser yields them
  (`undefined`, `null`, booleans, integers, strings), JavaScript truthiness,
  `||`, and the string a value becomes as an object key, with its decimal
  spelling of integers and the proof that it reads back.
- `Media` (media.dfy): the media-type enumeration, the parsed document
  (path, attributes, body), a file as the loop reaches it (parsed, or failed
  to read or parse) and the `MediaItem` record. Item fields keep the
  attribute value as parsed, because the loader copies `data.type`,
  `data.title`, … without conversion.
- `Selection` (selection.dfy): the one order-preserving filter behind both
  the type filter (`item.type === t`) and every dictionary bucket.
- `Loader` (loader.dfy): the loading loop as a method, the functions it
  computes (with and without a failing file), and the lemmas about which
  documents become items and where.
- `TypeFilter` (type_filter.dfy): the type filter.
- `TextOrder` (text_order.dfy): the name order used for ties, with proofs
  that it is a strict total order.
- `Grouping` (grouping.dfy): the dictionary-building loop (used for all
  three dictionaries), the function it computes, and the partition and
  first-seen-order lemmas.
- `CreatorRanking` (ranking.dfy): the comparator, an insertion sort standing
  for `Array.prototype.sort`, the proof that the comparator is consistent and
  that the sorted result is unique, and the `groupedByCreator` method.
- `TreeView` (tree_view.dfy): the two-level grouping and its partition lemmas.

Where the code and its evident intent differ, the model follows the code.
The `MediaItem` interface declares `type: MediaType`, one of seven names
(src/App.tsx:40, 45), but the loader accepts any truthy `type`, also one
outside the seven media types (`Loader.ValidationScenarios`). The loader
returns no list of skipped documents, it only warns; the model returns the
warned paths as a second result so that the skip count can be stated. The
warn-and-`continue` path shows that a bad document is meant to be skipped on
its own, but a file that cannot be read, or whose front matter does not
parse, is not: in the code the awaited read and the `fm` call (src/App.tsx:327-328) have no
`try`/`catch`, so one such file rejects the whole async load before
`setItems` (src/App.tsx:349) and the catalogue stays empty
(`Loader.FailureAbortsLoad`). The count "items plus warnings equals
documents" holds only when every file parses (`Loader.LoadAllParsed`,
`Loader.IngestCount`).

## Model

| member | source | states |
|---|---|---|
| JsValue.Truthy | src/App.tsx:332 | a value is falsy exactly when it is undefined, null, false, 0 or the empty string |
| JsValue.Or | src/App.tsx:342-344 | the or-default yields the first operand when it is truthy and the second otherwise, and is truthy exactly when either operand is |
| JsValue.StrOr | src/App.tsx:345 | the or-default on strings yields the first string unless it is empty, so a body defaulting to the empty string is the body itself |
| JsValue.Decimal | src/App.tsx:364 | an integer key is written with decimal digits only, at least one, and without a leading zero |
| JsValue.DecimalRoundTrip | src/App.tsx:364 | reading the decimal spelling of a number back gives the number |
| JsValue.DecimalInjective | src/App.tsx:364 | different numbers have different decimal spellings |
| JsValue.PropertyKey | src/App.tsx:364 | the key is `String(v)`: a string is itself, an integer is its decimal spelling (with a minus sign when negative, reading back as the number), true/false/null/undefined are their names |
| JsValue.PropertyKeyNumInjective | src/App.tsx:364-365 | two creators given as different integers index different dictionary entries (JavaScript's rounding of large numbers is left out) |
| JsValue.NumberKeyMatchesString | src/App.tsx:364-365 | for every natural number, the number and the string of its decimal digits (1984 and "1984") are different values but index the same dictionary entry |
| Selection.Select | src/App.tsx:358 | the kept items are items of the input that satisfy the criterion, never more than the input |
| Selection.SelectAppend | src/App.tsx:358 | filtering distributes over concatenation, so kept items keep their relative order |
| Selection.SelectCount | src/App.tsx:358 | every occurrence of a satisfying item is kept and no occurrence of any other item |
| Selection.SelectAll | src/App.tsx:358 | filtering a list whose items all satisfy the criterion returns it unchanged |
| Selection.SelectIdempotent | src/App.tsx:358 | filtering twice with the same criterion equals filtering once |
| Selection.SelectPrefix | src/App.tsx:358 | the filter of a prefix is a prefix of the filter |
| Loader.Accepts | src/App.tsx:332 | a document is kept exactly when none of `type`, `title`, `creator` is undefined, null, false, 0 or the empty string; a kept document has all three keys |
| Loader.BuildItem | src/App.tsx:337-346 | id is the path; type, title, creator copied verbatim; year, importance, imageUrl are the attribute when truthy and "", 3, "" otherwise (an explicit 0 importance becomes 3); importance is always truthy; notes equal the body |
| Loader.Ingest | src/App.tsx:321-347 | never more items than documents |
| Loader.IngestOnlyValid | src/App.tsx:332-341 | every item has truthy type, title and creator |
| Loader.Skipped | src/App.tsx:332-335 | every warned path belongs to a document that fails the required-field check |
| Loader.Load | src/App.tsx:321-349 | the load publishes a list exactly when every file is read and parsed, never more items than files; LoadAllParsed and AbortSticks give the list |
| Loader.Warned | src/App.tsx:325-335 | never more warnings than files; WarnedSound and LoadAllParsed say which paths |
| Loader.WarnedSound | src/App.tsx:332-334 | every warning names a parsed file whose document lacks a truthy type, title or creator |
| Loader.LoadMarkdownFiles | src/App.tsx:321-350 | the loop publishes what Load gives for the files (nothing once a read or parse throws) and prints the warnings Warned gives; when it publishes, items plus warnings number the files |
| Loader.LoadStep | src/App.tsx:326-346 | one more file: a failed read or parse ends the load, an accepted document appends its item, a rejected one appends its warning |
| Loader.AbortSticks | src/App.tsx:325-328 | once a read or parse has thrown, later files neither publish anything nor add warnings |
| Loader.FailureAbortsLoad | src/App.tsx:325-349 | a single file whose read or parse throws leaves the catalogue empty |
| Loader.LoadAllParsed | src/App.tsx:321-349 | when every file parses, the published list is Ingest of the documents and the warnings are Skipped of them |
| Loader.AbortScenario | src/App.tsx:325-349 | a valid book followed by an unparseable file publishes nothing and warns about nothing |
| Loader.IngestCount | src/App.tsx:325-347 | for parsed documents, item count plus skipped count equals document count |
| Loader.SkippedPrefix | src/App.tsx:325-335 | the warnings for a prefix of the documents are a prefix of all warnings |
| Loader.SkippedComplete | src/App.tsx:332-334 | every rejected document is warned about, right after the warnings for the documents before it |
| Loader.IngestPrefix | src/App.tsx:325-347 | loading a prefix of the documents yields a prefix of the items |
| Loader.IngestKeepsAccepted | src/App.tsx:332-346 | an accepted document's item is in the list at its slot, with id equal to its path |
| Loader.IngestDropsRejected | src/App.tsx:332-335 | a rejected document adds no item |
| Loader.IngestKeepsOrder | src/App.tsx:325-347 | an accepted document's item precedes the items of every later document |
| Loader.IngestOrigin | src/App.tsx:325-347 | every item is the item built from some accepted document, at that document's slot |
| Loader.IngestMembership | src/App.tsx:323-346 | with distinct paths, an item with a document's path exists exactly when the document has truthy type, title and creator |
| Loader.BookScenario | src/App.tsx:337-346 | a document with only type "book", title "Foo", creator "Bar" and body "Hello\nWorld" yields exactly the item with year "", importance 3, imageUrl "" and those notes |
| Loader.ValidationScenarios | src/App.tsx:332-343 | a type outside the enumeration is accepted and copied, importance 0 becomes 3, and a document without a type yields no item and one warning |
| TypeFilter.FilterItems | src/App.tsx:356-358 | 'all' returns the list unchanged; a type keeps only items whose type is that string |
| TypeFilter.FilterExact | src/App.tsx:356-358 | the filter keeps every occurrence of a passing item and none of any other |
| TypeFilter.FilterKeepsOrder | src/App.tsx:356-358 | the filter distributes over concatenation, so relative order is kept |
| TypeFilter.FilterIdempotent | src/App.tsx:356-358 | filtering the filtered list again changes nothing |
| TypeFilter.FilterDisjoint | src/App.tsx:356-358 | filtering by one type and then another leaves nothing |
| TextOrder.LessIrreflexive | src/App.tsx:369 | no name sorts before itself |
| TextOrder.LessTransitive | src/App.tsx:369 | the name order is transitive |
| TextOrder.LessTotal | src/App.tsx:369 | any two different names are ordered |
| TextOrder.LessAsymmetric | src/App.tsx:369 | two names are never ordered both ways |
| TextOrder.LocaleCompareFlip | src/App.tsx:369 | the name comparison flips sign when its arguments are swapped and is zero only on equal names |
| Grouping.FirstSeen | src/App.tsx:362-366 | dictionary keys are distinct |
| Grouping.FirstSeenSound | src/App.tsx:364 | every dictionary key is the key of some item |
| Grouping.GroupsOf | src/App.tsx:362-367 | one entry per key in first-seen order, holding exactly the items with that key in input order |
| Grouping.GroupsNamesDistinct | src/App.tsx:362-367 | the dictionary's entries have distinct keys |
| Grouping.AbsentKeyHasNoMembers | src/App.tsx:364 | a key never inserted has no items |
| Grouping.FirstSeenComplete | src/App.tsx:364 | every item's key is a dictionary key |
| Grouping.FirstSeenPrefix | src/App.tsx:362-366 | keys are only appended: the keys of a prefix of the input are a prefix of all keys |
| Grouping.FirstSeenOrder | src/App.tsx:362-366 | a key first met later is listed later than the key of any earlier item |
| Grouping.NoEmptyGroup | src/App.tsx:364-365 | every entry holds at least one item |
| Grouping.GroupsPartition | src/App.tsx:362-366 | entry names are distinct, an item's key names an entry, and that entry holds every occurrence of the item while every other entry holds none |
| Grouping.BucketStep | src/App.tsx:363-366 | if the key list and dictionary agree with the items seen so far, processing one more item (append its key if new, push it onto its key's list) keeps them in agreement |
| Grouping.TrackedEntries | src/App.tsx:367 | the entries of a dictionary that agrees with all items are exactly GroupsOf the items |
| Grouping.Bucket | src/App.tsx:362-367 | the dictionary loop followed by Object.entries yields GroupsOf of the items |
| Grouping.Entries | src/App.tsx:367 | Object.entries lists each key in insertion order with its list |
| CreatorRanking.Compare | src/App.tsx:367-370 | the group with more items compares first; equal counts compare by name |
| CreatorRanking.CompareFlip | src/App.tsx:367-370 | the comparator is antisymmetric, zero only on same name and count, and negative exactly when the first group has more items or as many and a smaller name |
| CreatorRanking.CompareTransitive | src/App.tsx:367-370 | the comparator is transitive, hence a consistent sort comparator |
| CreatorRanking.Insert | src/App.tsx:367-370 | inserting a group into a sorted list gives a sorted list with that group added |
| CreatorRanking.SortedSplice | src/App.tsx:367-370 | a group placed between what sorts before it and what sorts after it keeps the list sorted |
| CreatorRanking.SortGroups | src/App.tsx:367-370 | the sort's result is sorted by the comparator and a permutation of the entries |
| CreatorRanking.DistinctOccursOnce | src/App.tsx:367 | a list of distinctly named entries holds each entry at most once |
| CreatorRanking.PermutationKeepsNamesDistinct | src/App.tsx:367-370 | sorting entries with distinct names leaves them with distinct names |
| CreatorRanking.SortedHeadsEqual | src/App.tsx:367-370 | two sorted permutations of distinctly named entries start with the same entry |
| CreatorRanking.TailsPermuted | src/App.tsx:367-370 | two permutations with the same first group have permuted tails |
| CreatorRanking.SortedUnique | src/App.tsx:367-370 | any two sorted permutations of distinctly named entries are equal, so the ranking does not depend on the sort algorithm |
| CreatorRanking.SortedIsRanked | src/App.tsx:367-370 | in a sorted list of distinct creators an earlier group has more items, or as many and a smaller name |
| CreatorRanking.GroupedByCreator | src/App.tsx:361-371 | the sections are a permutation of the creator entries, each holds exactly its creator's items in input order and is non-empty, every creator present has a section, names are distinct, and sections are ranked by count then name |
| TreeView.Tree | src/App.tsx:202-224 | one branch per type key in first-seen order, holding the creator dictionary of exactly that type's items |
| TreeView.GroupByTypeThenCreator | src/App.tsx:202-224 | the loop and the nested reduce build exactly the type-then-creator tree |
| TreeView.TreePartition | src/App.tsx:202-224 | type keys are distinct, creator keys are distinct within a type, and a leaf holds every occurrence of an item with its type and creator keys and none of any other |
| TreeView.TreeCovers | src/App.tsx:202-224 | every item sits in the leaf under its own type key and creator key |
| TreeView.TreeLeafOrder | src/App.tsx:218-224 | a leaf is the input filtered by type key and then creator key, so it keeps input order |

## Left out

- Front-matter parsing (the `front-matter` call at src/App.tsx:328) is a
  foreign library: each file arrives already split into an attributes map
  and a body, or marked as failed when the parser throws; which texts make
  it throw is not modelled.
- File discovery (`import.meta.glob`, src/App.tsx:77-80) and the awaited
  read of each file (src/App.tsx:327) are I/O: the files are an input
  sequence, in the order the paths are enumerated, and a rejected read is a
  file marked as failed.
- The console warning for a skipped document is I/O: the model returns the
  warned paths instead.
- YAML floats, NaN, dates, arrays and objects are not modelled; numbers are
  integers (see JsValue.PropertyKey below for large ones).
- JsValue.PropertyKey: numbers are modelled as exact integers. JavaScript
  numbers are doubles: the parser rounds integers above 2^53 (9007199254740993
  becomes 9007199254740992, so two different numbers in the files can share
  a group), and `String` prints the shortest digits that read back followed
  by zeros (2^60 keys as "1152921504606847000", not "1152921504606846976"),
  and uses exponent notation from 10^21 up. The model's keys agree with the
  source only for integers of magnitude at most 2^53.
- TextOrder.LocaleCompare: `localeCompare` is locale dependent and is not a
  strict total order: it returns 0 for distinct but canonically equivalent
  names (a precomposed "é" and "e" followed by a combining acute accent) and
  ignores some code points. The model assumes a strict total order and uses
  lexicographic order on characters; for two creators with equal counts whose
  names collate equal, the source's stable sort keeps their `Object.entries`
  order while the model orders them by code point. Code-point order also
  differs from `localeCompare` on ordinary names (by code point "Bob" sorts
  before "alice", under common locales after it, and kana and kanji order
  differ as well), so the order of creators with equal counts generally
  differs from the app's.
- Grouping.Bucket: JavaScript lists array-index keys (canonical decimal
  spellings of integers from 0 to 2^32 - 2, so "7" but not "007") before
  other keys, in ascending numeric order; the model keeps plain first-seen
  order. The ranked creator list is unaffected, because
  CreatorRanking.SortedUnique makes the sorted result independent of entry
  order; only the tree view's key order differs.
- Grouping.Bucket: the first-insertion test `!groups[key]` (src/App.tsx:206,
  219, 364) also sees properties inherited from `Object.prototype`. For a
  type or creator named `constructor`, `toString`, `toLocaleString`,
  `valueOf`, `hasOwnProperty`, `isPrototypeOf`, `propertyIsEnumerable`,
  `__proto__`, `__defineGetter__`, `__defineSetter__`, `__lookupGetter__` or
  `__lookupSetter__` no array is created and the next `push` throws a
  `TypeError` while rendering; the model files such items like any other key.
- `Array.prototype.sort` is a library algorithm: the model sorts by insertion,
  and CreatorRanking.SortedUnique shows that, under the strict total order
  above, any correct sort gives the same result with this comparator.
- React state, `useMemo`, the view-mode tabs, the selected item, and all
  rendering (cards, creator sections, detail page, graph colors, icon and
  label tables) are presentation and are not modelled.
- src/lib/content.ts (a file read plus a `gray-matter` call, and a stub
  returning an empty list) and src/types/index.ts (declarations only) are
  not part of this model; the media-type enumeration is taken from
  src/App.tsx:40.
