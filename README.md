# Quote store of the quotes widget, in Dafny

The widget in `dom-manipulation/script.js` keeps a global array `quotes` of records
`{id, text, category}` and a global string `selectedCategory`. Most of the file is page
plumbing. Beneath it is a small store with these parts:

- the start-up state: the stored array, or three seed quotes with ids 1, 2 and 3; the
  stored filter, or `"all"`;
- the display filter: everything for `"all"`, otherwise the records of one category in
  their original order;
- the random pick of `showRandomQuote`;
- the list of distinct categories for the selector;
- `addNewQuote`: trim both inputs, refuse when either is empty, append one record;
- the import handler: append a parsed array verbatim;
- the formatting of a server response: the first five posts become `"General"` quotes;
- `mergeQuotes`: reconcile the collection with a server batch.

The project models this store:

- `js_string.dfy` (module `JsString`): `String.prototype.trim` over ECMAScript's white-space
  and line-terminator characters, and string truthiness.
- `sequences.dfy` (module `Sequences`): `[...new Set(s)]` as `Distinct`, with its
  first-seen order.
- `quotes.dfy` (module `Quotes`): the record type, the seed, `find` by id, and the pure
  expressions of the page. These are the filter, the random pool and pick, the categories,
  the record built by the add form and the server formatting.
- `merge.dfy` (module `Merge`): the `forEach` of `mergeQuotes` as the function `MergeAll`.
  Beside it is `MergedView`, a closed form of its result that is written without the loop.
  The lemma `MergeAllIsMergedView` proves the two equal. Every property of the merge is
  proved from that closed form.
- `store.dfy` (module `Store`): the class `QuoteStore`. It has the two globals as fields and
  the handlers as methods that update them in place. The `mergeQuotes` loop and the inner
  `find` are `while` loops proved against `MergeAll` and `Find`.

What the merge does, as proved:

- It never removes, reorders or re-keys a local record, and it never changes a category.
- Only the first local record with a batch id can change, and only its text.
- Batch ids that no local record carries are appended after all local records. Each such id
  is appended once, in the order of its first appearance in the batch.
- Afterwards every batch id is present. The first record with that id holds the text of the
  last batch record with that id.
- The conflict flag is raised exactly when a batch record meets a record with its id whose
  text differs at that moment.
- A second merge of the same batch leaves the collection unchanged, for any batch. It flags
  no conflict when the batch ids are distinct. `RepeatedIdConflictsAgain` shows a batch
  that repeats an id and flags a conflict again on every later merge.

Points where the code behaves differently from what a reader might expect, all modelled as
written:

- `displayQuotes` (line 47) filters on `selectedCategory`, but `showRandomQuote` (line 68)
  tests the constant string `"all"`, which is always truthy. The random pool is therefore
  always the whole collection, and the pick is refused only when the collection is empty,
  even when the selected category shows no quote. `RandomPickIgnoresEmptyFilter` exhibits
  this.
- Ids are not unique. The import appends verbatim (line 165), and the merge's lookup takes
  the first match. The model allows repeated ids everywhere.
- The import checks only that the parsed value is an array (line 163), not the shape of
  its elements.
- A stored empty array is truthy, so it replaces the seed (line 4). A stored value that
  does not parse makes `JSON.parse` throw. It does not fall back to the seed.

## Model

| member | source | states |
|---|---|---|
| `JsString.Trim` | dom-manipulation/script.js:102-103 | the trimmed string is the input with white space cut from both ends only; it is empty exactly when the input is all white space, and otherwise starts and ends with a non-white-space character |
| `JsString.TrimIdempotent` | dom-manipulation/script.js:102-103 | trimming an already trimmed input changes nothing |
| `Sequences.Distinct` | dom-manipulation/script.js:23 | the Set spread holds every element of the input, nothing else, and no element twice |
| `Sequences.DistinctKeepsFirstSeenOrder` | dom-manipulation/script.js:23 | the Set spread lists elements in the order of their first occurrence |
| `Quotes.InitialQuotes` | dom-manipulation/script.js:4-8 | with nothing stored the collection is the three seed quotes, otherwise the stored array, even an empty one |
| `Quotes.InitialCategory` | dom-manipulation/script.js:11 | the filter starts as the stored value unless it is missing or empty, then as "all"; it is never empty |
| `Quotes.Find` | dom-manipulation/script.js:205 | `find` by id yields the first record with that id, and nothing exactly when no record has it |
| `Quotes.WithCategory` | dom-manipulation/script.js:49 | the filter keeps only records of the category, keeps every such record, and is no longer than the input |
| `Quotes.WithCategoryDistributes` | dom-manipulation/script.js:49 | the filter preserves order: filtering a concatenation concatenates the filtered parts |
| `Quotes.FilteredQuotes` | dom-manipulation/script.js:47-49 | the displayed records are drawn from the collection and are no more than it; `FilteredQuotesCharacterized` and `WithCategoryDistributes` pin them down as the whole collection for "all" and otherwise the category's records in their original order |
| `Quotes.FilteredQuotesCharacterized` | dom-manipulation/script.js:47-54 | "all" shows the whole collection; any other value shows exactly the records of that category; the "no quotes" case is exactly when none has it |
| `Quotes.RandomPool` | dom-manipulation/script.js:68-70 | the random-pick pool is the whole collection whatever category is selected |
| `Quotes.RandomIndex` | dom-manipulation/script.js:77 | `Math.floor(u * n)` for a draw in [0, 1) is an index in [0, n) |
| `Quotes.PickRandom` | dom-manipulation/script.js:72-78 | the pick is refused exactly when the pool is empty and is otherwise a member of the pool |
| `Quotes.RandomPickIgnoresEmptyFilter` | dom-manipulation/script.js:68-78 | with a filter no seed quote matches, the display is empty while the random pick still shows a quote of another category |
| `Quotes.Categories` | dom-manipulation/script.js:23 | the mapped list has one category per record, in record order |
| `Quotes.UniqueCategories` | dom-manipulation/script.js:23 | the option list has no repeats and only categories of the collection; `UniqueCategoriesListsEachOnce` adds that every category appears, in first-seen order |
| `Quotes.UniqueCategoriesListsEachOnce` | dom-manipulation/script.js:23 | the category options contain every category of the collection, nothing else, each once, ordered by first appearance |
| `Quotes.NewQuote` | dom-manipulation/script.js:102-110 | no record exactly when the text or the category is all white space; otherwise the record carries the given id and the trimmed, non-empty text and category |
| `Quotes.FormatServerQuotes` | dom-manipulation/script.js:185-189 | the batch is the first five posts (all of them if fewer), each keeping its id, with its title as text and category "General" |
| `Quotes.AddBeYourself` | dom-manipulation/script.js:101-110 | the add form turns "Be yourself." under "Motivation", which need no trimming, into exactly that record with the clock reading as id |
| `Quotes.SeedThenAddMotivation` | dom-manipulation/script.js:47-54 | adding any "Motivation" record to the seed gives four records, two of them shown under "Motivation", in insertion order |
| `Merge.MergeStep` | dom-manipulation/script.js:205-211 | one iteration keeps every record's id, category and place, grows the collection by one exactly when the id is unknown, and flags only on a known id; `MergeStepOnView` states its full effect |
| `Merge.MergeAll` | dom-manipulation/script.js:204-213 | the whole loop never shortens the collection and adds at most one record per batch record; `MergeAllIsMergedView` fixes its result as the closed form `MergedView` |
| `Merge.MergeAllIsMergedView` | dom-manipulation/script.js:204-213 | the merge loop's collection equals the closed form: local records refreshed in place, then one record per unknown batch id |
| `Merge.MergeStepOnView` | dom-manipulation/script.js:205-211 | one iteration appends an unknown record or overwrites the text of the first match, and flags a conflict exactly when that text differed |
| `Merge.MergeConflictIff` | dom-manipulation/script.js:202-211 | the conflict flag is raised exactly when some batch record meets a record with its id whose text differs at that moment |
| `Merge.MergeConflictIffDistinct` | dom-manipulation/script.js:202-211 | with distinct batch ids the flag is raised exactly when some batch record's local match has a different text |
| `Merge.MergeKeepsExistingRecords` | dom-manipulation/script.js:204-212 | the merge never shortens, reorders or re-keys local records, never changes a category, and touches only the first local record of each batch id |
| `Merge.MergeAppendsUnknownInBatchOrder` | dom-manipulation/script.js:204-208 | appended records come after all local ones, one for each batch id not held locally, in batch order, with that batch record's category |
| `Merge.UnknownIdsFirstSeen` | dom-manipulation/script.js:204-208 | unknown batch ids are met in batch order |
| `Merge.MergeDeliversBatch` | dom-manipulation/script.js:205-211 | after the merge every batch id is present and its first record holds the text of the last batch record with that id |
| `Merge.MergeDeliversDistinctBatch` | dom-manipulation/script.js:205-211 | with distinct batch ids the first record with each batch id holds that batch record's text |
| `Merge.MergeIdempotent` | dom-manipulation/script.js:204-213 | merging the same batch a second time leaves the collection unchanged |
| `Merge.MergeTwiceReportsNoConflict` | dom-manipulation/script.js:202-213 | with distinct batch ids the second merge of the same batch changes nothing and flags no conflict |
| `Merge.RepeatedIdConflictsAgain` | dom-manipulation/script.js:204-212 | a batch repeating a new id with two texts flags a conflict on the first merge and again on the second |
| `Merge.FetchedPostsMerged` | dom-manipulation/script.js:185-191 | after a fetch every one of the first five posts is present, and every appended record is one of them with category "General" |
| `Store.QuoteStore.Load` | dom-manipulation/script.js:4-11 | the store starts from the stored collection and filter, or from the seed ids 1, 2, 3 and "all" |
| `Store.QuoteStore.FilterQuotesByCategory` | dom-manipulation/script.js:36-49 | choosing a filter sets selectedCategory and shows all records for "all", otherwise exactly those of the chosen category |
| `Store.QuoteStore.ShowRandomQuote` | dom-manipulation/script.js:67-78 | the pick is refused exactly when the collection is empty; otherwise it is the record at floor(u * length) of the whole collection |
| `Store.QuoteStore.AddNewQuote` | dom-manipulation/script.js:101-112 | an input that is empty once trimmed leaves the collection unchanged; otherwise exactly the new record is appended after the unchanged earlier ones |
| `Store.QuoteStore.ImportQuotesFromJsonFile` | dom-manipulation/script.js:162-165 | a parsed array is appended verbatim after the existing records; anything else leaves the collection unchanged |
| `Store.QuoteStore.FindById` | dom-manipulation/script.js:205 | the search loop returns the index of the first record with the id, or nothing when no record has it |
| `Store.QuoteStore.MergeQuotes` | dom-manipulation/script.js:201-218 | the loop leaves the collection and the flag that `MergeAll` defines, which equals the closed form `MergedView` |
| `Store.QuoteStore.FetchQuotesFromServer` | dom-manipulation/script.js:178-197 | a fetched response merges its formatted first five posts; a failed fetch changes nothing and flags nothing |

## Left out

- Page rendering and form wiring are not modelled: `innerHTML`, `createElement`, event
  listeners, `alert` and `console`. The models return what would be shown instead.
- `localStorage` writes and JSON `parse`/`stringify` are not modelled. Each write stores a
  snapshot of the current collection. Stored values enter `Store.QuoteStore.Load` as
  already parsed options. A stored text that fails to parse throws in the page and is not
  modelled.
- `syncQuotes` (the POST after an add) is not modelled: it is network I/O whose result is
  only logged.
- The GET in `fetchQuotesFromServer` is reduced to a `ServerResponse` parameter: a parsed
  body, or a failure that is only logged.
- `setInterval` is not modelled. It can overlap merge cycles, which is a concurrency
  concern.
- The export (`Blob`, `URL.createObjectURL`, the download anchor) is not modelled: it is
  file output that does not change the store.
- In the import, `FileReader` and `JSON.parse` are reduced to an `ImportPayload`
  parameter. A file that does not parse is `NotArray`, as the catch treats both alike.
- Imported elements are modelled as quote records. The page accepts any JSON values, and
  ids of other types under `===` are not modelled.
- `Math.random` is a real parameter in [0, 1), not a floating-point number.
- `Date.now` is an integer parameter.
- JavaScript aliasing is not modelled: the appended server record is the same object as
  the batch element. Records are values here.
- Strings are sequences of Unicode code points, not UTF-16 code units. Trim treats every
  white-space character of ECMAScript as one unit either way.
