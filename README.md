# Book finder core, in Dafny

This project models the logic of a small book search client for the Open Library
API:

- the search service builds the request URL from a query, a search type and a
  result limit;
- it turns each returned document into a `Book`, keeping at most five subjects;
- it sorts the books by rating, newest first, oldest first, or not at all;
- it builds cover image URLs;
- it decides whether a response gives books, gives none, or fails.

It also models the two pieces of client state, each as a class over a sequence
field:

- the search history keeps the ten most recent searches, and a repeated search
  replaces the earlier one;
- the favourites list is a list of book keys that a toggle adds to or removes
  from.

Modules:

- `Wrappers`: the `Option` type.
- `Sequences`: `Filter`, `Take`, subsequences and distinctness, with their lemmas.
- `Text`: the string builtins the core relies on, written out. These are
  `String.prototype.trim` (with ECMAScript's set of white space and line
  terminators), `toLowerCase` (for ASCII letters) and decimal number formatting.
  It also holds a decimal parser and a split at a separator character. The client
  uses neither; they are there to state the round-trip lemmas about the URLs it
  builds.
- `UriEncoding`: `encodeURIComponent` (UTF-8 and then percent escapes), and a
  decoder that undoes it. The decoder is a left inverse of the encoder, used to
  state the round trip. It is not JavaScript's `decodeURIComponent`: it accepts
  overlong UTF-8 and rejects non-ASCII characters that are not escaped.
- `BookTypes`: `Book`, `SearchFilters` and `SearchHistoryItem`.
- `BookService`: `searchBooks`, `getSearchParam`, `transformBookData`, `sortBooks`
  and `getCoverImageUrl`.
- `SearchHistory`: the `useSearchHistory` hook, as the pure updater `AddEntry` and
  the class `HistoryStore`.
- `Favorites`: the `useFavorites` hook, as the pure updater `Toggled` and the class
  `FavoritesStore`.

The sort of `sortBooks` is `Array.prototype.sort`, which is stable. The model
sorts by insertion on the key that the comparator subtracts, with an absent value
counting as 0. It proves that this is the only stable sort for that comparator:
the list is ordered by key, and the books of each key keep their input order.

## Model

| member | source | states |
|---|---|---|
| BookService.ParamName | src/services/bookService.ts:46-56 | the field name of the search parameter never contains `=` or `&` |
| BookService.SearchParam | src/services/bookService.ts:43-57 | the fragment starts with the field name, its only `=` comes right after the name, and it holds no `&`, whatever the query |
| BookService.SearchParamFields | src/services/bookService.ts:43-57 | the fragment splits on `=` into exactly two parts; the name is `author`, `subject` or `isbn` for those types and `title` for every other type; the value is the encoded query and decodes back to the query |
| BookService.SearchUrl | src/services/bookService.ts:15 | the URL starts with the search endpoint; right after a stretch as long as the search parameter comes an `&`, the only one in the query string, and the URL ends with `limit=<n>`, the limit in decimal |
| BookService.SearchUrlFields | src/services/bookService.ts:14-15 | the URL is the search endpoint followed by exactly two `&`-separated fields, the search parameter and `limit=<n>`; the number reads back as the limit, so the query cannot inject another field |
| BookService.TransformBookData | src/services/bookService.ts:62-77 | every field is copied unchanged; the subjects are absent exactly when the document's are, and otherwise they are the document's first min(5, n) subjects |
| BookService.TransformLosesOnlyLaterSubjects | src/services/bookService.ts:62-77 | two documents give the same book if and only if they agree on every field except the subjects, and on the first five subjects (or both have none) |
| BookService.TransformAll | src/services/bookService.ts:30 | there is one book per document, in the documents' order, and each book is `TransformBookData` of its document, so it has that document's key and title and at most five subjects |
| BookService.Compare | src/services/bookService.ts:83-95 | the comparator's result for `rating`, `new`, `old` and every other key is the difference of the two books' sort keys (rating descending, year descending, year ascending, all equal), an absent value counting as 0 |
| BookService.SortByKey | src/services/bookService.ts:82-96 | the insertion sort returns a permutation of its input that is ordered by the sort key |
| BookService.InsertSorted | src/services/bookService.ts:83-95 | inserting a book into a list ordered by key keeps the list ordered |
| BookService.SortBooks | src/services/bookService.ts:82-96 | the result is a permutation of the input; for `rating` the ratings do not increase, for `new` the years do not increase, for `old` the years do not decrease |
| BookService.InsertWithKey | src/services/bookService.ts:83 | inserting puts the book in front of the other books of its own key, and leaves the books of every other key as they were |
| BookService.SortByKeyStable | src/services/bookService.ts:83 | for every key, the books with that key appear in the sorted list in their input order |
| BookService.StableSortUnique | src/services/bookService.ts:83 | two lists ordered by key that hold the same books in the same order within each key are equal |
| BookService.SortBooksIsStableSort | src/services/bookService.ts:82-96 | the result of `sortBooks` is a stable sort of its input, and a list is a stable sort of the input if and only if it equals that result |
| BookService.RelevanceKeepsOrder | src/services/bookService.ts:91-93 | for `relevance` and every unrecognised key, the list comes back exactly as it was |
| BookService.UnorderedKeepsOrder | src/services/bookService.ts:93 | when every comparison returns 0, the sort changes nothing |
| BookService.SearchResults | src/services/bookService.ts:17-37 | the search fails if and only if the request fails, the status is not ok, or the body is not a JSON value whose `docs` can be read; no documents gives no books; otherwise there is one book per document, each with at most five subjects; the books are the stable sort of the transformed documents (in sort order, ties in the response's order), and under `relevance` they are in the response's order |
| BookService.SortedResultsFacts | src/services/bookService.ts:30-31 | the sorted books of a response are the stable sort of the transformed documents, keep the documents' order under `relevance`, and have at most five subjects each |
| BookService.SearchBooks | src/services/bookService.ts:11-38 | with the network as a parameter: the search fetches the search URL; it fails if and only if that fetch fails, is not ok, or gives no usable JSON; a response without documents gives no books; otherwise the books are `sortBooks` of the transformed documents |
| BookService.CoverImageUrl | src/services/bookService.ts:104-106 | the cover id and the size can be read back from the URL, so distinct covers and sizes give distinct URLs |
| UriEncoding.EncodeUriComponent | src/services/bookService.ts:44 | the encoded query holds only `%` and unreserved characters, so no `=`, `&` or other delimiter |
| UriEncoding.EncodeRoundTrip | src/services/bookService.ts:44 | decoding the encoded query gives back the query, for every string of Unicode scalar values |
| UriEncoding.EncodePercentDecodes | src/services/bookService.ts:44 | undoing the percent escapes gives the query's UTF-8 bytes |
| UriEncoding.Utf8RoundTrip | src/services/bookService.ts:44 | decoding the UTF-8 bytes of a string gives back the string |
| UriEncoding.Utf8Decodes | src/services/bookService.ts:44 | one character's UTF-8 bytes have the length their lead byte announces, continuation bytes after it, and encode the character's code point |
| UriEncoding.PercentEscapeDecodes | src/services/bookService.ts:44 | the percent escape of a byte sequence decodes back to those bytes, in front of any rest that itself decodes |
| UriEncoding.HexRoundTrip | src/services/bookService.ts:44 | the hex digit of a number below 16 reads back as that number |
| Text.IntToStringRoundTrip | src/services/bookService.ts:15 | the decimal text of an integer, as put in the `limit` field and the cover URL, parses back to the integer |
| Text.DecimalRoundTrip | src/services/bookService.ts:105 | the decimal digits of a natural number read back as that number |
| Text.NatToDecimal | src/services/bookService.ts:105 | a number's decimal text is non-empty, all digits, and has no leading zero |
| Text.Trim | src/hooks/useSearchHistory.ts:33 | the trimmed query is no longer than the query, and neither starts nor ends with white space |
| Text.TrimKeepsMiddle | src/hooks/useSearchHistory.ts:33 | the trimmed query is the piece of the query that starts at the first character that is not white space |
| Text.TrimDropsLeadingWhitespace | src/hooks/useSearchHistory.ts:33 | everything `trim` drops before that piece is white space |
| Text.TrimDropsTrailingWhitespace | src/hooks/useSearchHistory.ts:33 | everything `trim` drops after that piece is white space |
| Text.TrimTrimmed | src/hooks/useSearchHistory.ts:33 | `trim` leaves a trimmed string unchanged |
| Text.TrimIdempotent | src/hooks/useSearchHistory.ts:33 | trimming twice is the same as trimming once |
| Text.ToLower | src/hooks/useSearchHistory.ts:41 | lower-casing keeps the length, maps each character on its own, and leaves no upper-case ASCII letter |
| Text.ToLowerIdempotent | src/hooks/useSearchHistory.ts:41 | lower-casing twice is the same as lower-casing once |
| SearchHistory.AddEntry | src/hooks/useSearchHistory.ts:31-46 | the new history holds 1 to 10 entries; the first is the trimmed query with the type and the time; no later entry matches the query (case-insensitively) and type |
| SearchHistory.AddKeepsFirstSurvivors | src/hooks/useSearchHistory.ts:40-45 | the history after the new entry is the first surviving entries of the old history, as many as fit: its length is min(10, 1 + the number of survivors), and the cap drops the oldest survivors |
| SearchHistory.AddKeepsOrder | src/hooks/useSearchHistory.ts:40-45 | the entries after the new one are a subsequence of the previous history, in their old order |
| SearchHistory.AddDropsOnlyMatches | src/hooks/useSearchHistory.ts:40-42 | below the cap of ten, exactly the matching entries are removed, and every other entry is kept as often as before |
| SearchHistory.AddToFullHistory | src/hooks/useSearchHistory.ts:45 | a full history with no matching entry loses its oldest entry, and the rest move down by one |
| SearchHistory.AddTwice | src/hooks/useSearchHistory.ts:31-46 | searching a trimmed query twice with the same type leaves one entry for it, at the front, with the second timestamp |
| SearchHistory.FilterKeepsNoRepeat | src/hooks/useSearchHistory.ts:40-42 | removing entries from a history without repeated searches cannot create one |
| SearchHistory.AddKeepsNoRepeat | src/hooks/useSearchHistory.ts:31-46 | adding a trimmed query keeps the history free of repeated searches |
| SearchHistory.HistoryStore.AddToHistory | src/hooks/useSearchHistory.ts:31-47 | the history becomes the updater applied to the old history: at most ten entries, with the new trimmed entry first |
| SearchHistory.HistoryStore.ClearHistory | src/hooks/useSearchHistory.ts:49-51 | the history becomes empty |
| Favorites.IndexOf | src/hooks/useFavorites.ts:31 | the result is the first position of the key, or -1 if and only if the key is absent |
| Favorites.Includes | src/hooks/useFavorites.ts:43 | true if and only if the key is in the list |
| Favorites.Toggled | src/hooks/useFavorites.ts:29-40 | after a toggle the key is present if and only if it was absent before; every other key is present if and only if it was before |
| Favorites.ToggleAbsent | src/hooks/useFavorites.ts:36-37 | toggling an absent key appends it and changes nothing else |
| Favorites.TogglePresent | src/hooks/useFavorites.ts:32-34 | toggling a present key removes every copy of it, keeps every other key as often as before, and keeps their order |
| Favorites.ToggleAbsentTwice | src/hooks/useFavorites.ts:29-40 | toggling an absent key twice gives back exactly the original list |
| Favorites.TogglePresentTwice | src/hooks/useFavorites.ts:29-40 | toggling a present key twice keeps the same set of keys, but moves the key to the end, once |
| Favorites.ToggleKeepsDistinct | src/hooks/useFavorites.ts:29-40 | a list without repeated keys has none after a toggle |
| Favorites.FavoritesStore.ToggleFavorite | src/hooks/useFavorites.ts:29-40 | the list becomes the toggled old list, and the key is in it if and only if it was not before |
| Favorites.FavoritesStore.IsFavorite | src/hooks/useFavorites.ts:42-44 | true if and only if the key is in the favourites list |
| Sequences.FilterMembers | src/hooks/useFavorites.ts:34 | an element is kept by `filter` if and only if it is in the list and passes the test |
| Sequences.FilterCount | src/hooks/useSearchHistory.ts:40-42 | `filter` keeps every copy of an element that passes and none of one that fails |
| Sequences.FilterIsSubsequence | src/hooks/useSearchHistory.ts:40-42 | what `filter` keeps is in the order of the list |
| Sequences.TakeAfterHead | src/hooks/useSearchHistory.ts:45 | `[x, ...s].slice(0, n)` keeps `x` and the first `n - 1` items of `s`, and its length is min(n, 1 + the length of `s`) |
| Sequences.FilterKeepsDistinct | src/hooks/useFavorites.ts:34 | filtering a list without repeats gives a list without repeats |

## Left out

- The network: `fetch` is a function parameter of `BookService.SearchBooks`, and
  its result is the `Reply` datatype. The asynchrony of the promise is not
  modelled.
- JSON parsing: `Payload` gives only the cases the code tells apart. These are a
  body that is not JSON, `null`, and a value whose `docs` is present or missing
  (or falsy). A `docs` that is not an array, or documents without `key` and
  `title`, are not modelled.
- The error logging and the re-thrown message `Failed to search books`. Every
  failure is modelled as the single `SearchFailed` outcome.
- Fields of a document other than the twelve that `transformBookData` reads: the
  projection drops them.
- BookService.SortBooks: ratings are modelled as exact reals rather than IEEE
  doubles, so rounding in the comparator's subtraction and `NaN` are not modelled.
  A rating of 0 behaves the same either way, because `||` turns it into 0.
- BookService.SortBooks: `Array.prototype.sort` is modelled by its result, the
  stable sort, and not by its algorithm.
- Text.IntToString: numbers are formatted as plain decimal integers. JavaScript's
  exponent notation for very large numbers and its formatting of non-integer
  limits and cover ids are not modelled.
- Text.ToLower: only ASCII letters are lower-cased. Full Unicode case mapping is
  not modelled.
- UriEncoding.EncodeUriComponent: Dafny strings hold Unicode scalar values, so the
  `URIError` that JavaScript raises for a lone surrogate cannot arise.
- `Date.now()` is the parameter `now` of `SearchHistory.HistoryStore.AddToHistory`.
- Persistence in `localStorage`: the effects that load and save the history and
  the favourites, including what happens when the stored JSON is malformed.
- The React machinery (`useState`, `useEffect`, re-rendering). Each hook's state
  is a class field, and each updater is applied at once.
- The UI components and the orchestration in `App.tsx`: they are presentation
  only.
