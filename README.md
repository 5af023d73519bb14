# HolyQuran: verse search, screen rules and bookmarks, in Dafny

This project models the logic core of the HolyQuran mobile application (a
Quran reader, Hadith browser, tasbih counter and bookmark lists) and proves
properties of it. Rendering and the other UI parts are not modelled.

- **Verse search** (`components/search/`). `mergeData.js` joins the Arabic
  base corpus with the English, Pashto and Dari translations into one record
  per verse. `searchIndex.js` builds a lunr full-text index over those records
  on the first query. It prefixes the query string with one translation
  field name (`translation_<language>:`) and maps every hit back to a merged
  record. The module `MergeData` models the merge
  loop as a method proved against the function `Merge`. The module
  `SearchIndex` models the lazily built index as the class `QuranSearch`:
  the field `idx` is written once, and `SearchQuran` is proved against
  `ResolveHits`. lunr's matching and ranking is a parameter (`Matcher`).
- **Surah screen** (`app/SurahDetails/index.jsx`), module `SurahDetails`:
  - finding the surah by name;
  - the previous/next header buttons;
  - the verse and translation lists of a surah;
  - the choice of translation corpus;
  - the text shown under each verse;
  - bookmarking a verse from the long-press sheet.
- **Hadith list** (`app/Hadiths/index.jsx`), module `Hadiths`:
  - the hadiths of one book;
  - bookmarking a hadith without duplicates;
  - card labels and list keys.
- **Hadith books** (`app/HadithBooks/index.jsx`), module `HadithBooks`: the
  book list and the search box filter.
- **Verse bookmarks** (`app/Bookmarks/index.jsx`), module `Bookmarks`:
  loading the list and deleting a bookmark by id.
- **Hadith bookmarks** (`app/Bookmarks/HadithBookmarks.jsx`), module
  `HadithBookmarks`:
  - loading the list and deleting a bookmark;
  - list keys;
  - the text direction of a card.
- **Tasbih counter** (`app/Tazbih/index.jsx`), module `Tazbih`. The class
  `Counter` holds the screen's state: the count, the current recitation and
  the feedback mode. Its methods update that state in place.
- **Shared helpers**:
  - `Wrappers` defines `Option`, which stands for JavaScript's
    `undefined`/`null`.
  - `Seqs` defines `Array.prototype.filter`, `find` and `some`, with their
    laws.
  - `Strings` defines `String(n)`, an ASCII `toLowerCase` and `includes`.

How JavaScript values are modelled:
- A string is falsy exactly when it is `""`.
- A missing value is `None`.
- A number is falsy exactly when it is `0`.
- Data files and AsyncStorage contents become function parameters.

The index declares `this.ref("id")` (`components/search/searchIndex.js:8`),
so each hit's ref is the record's `id`, and `mergedData[result.ref]` then
indexes the array by id. This gives the first finding below.

The merge reads its corpora as `ArabicQuran["quran-uthmani-hafs"]` and
`EnglishQuran[id].translation` (`components/search/mergeData.js:8-11`). The
surah and home screens read the same files as
`ArabicQuran.quran["quran-uthmani-hafs"]` with the text in `.verse`. The
model assumes the files have the shape the merge reads.

## Model

| member | source | states |
|---|---|---|
| MergeData.BuildMergedData | components/search/mergeData.js:6-22 | The loop yields exactly `Merge(base, …)`: one record per base entry, pushed in `Object.entries` order. |
| MergeData.MergeAt | components/search/mergeData.js:8-21 | Record `i` comes from base entry `i`. `id`, `surah`, `ayah` and `verse` are copied from the verse object, not the key. Each translation is the corpus entry for the key, or `""` when the corpus has no entry. |
| MergeData.MergeLength | components/search/mergeData.js:8-22 | There are exactly as many records as base entries, so a missing translation never drops a verse. |
| MergeData.MergePrefix | components/search/mergeData.js:13-21 | Merging more entries only appends: the records of a prefix of the base are a prefix of the whole. |
| MergeData.MergeIds | components/search/mergeData.js:14 | Distinct base ids give distinct merged ids, and every base id has a merged record. |
| SearchIndex.QuranSearch.constructor | components/search/searchIndex.js:4 | At module load the index is unset and has never been built. |
| SearchIndex.QuranSearch.CreateIndex | components/search/searchIndex.js:6-20 | Builds the index of all merged records: ref field `id`, the six declared fields, one document per record in array order. It runs only while no index exists. |
| SearchIndex.QuranSearch.SearchQuran | components/search/searchIndex.js:22-30 | Builds the index on the first call and reuses it afterwards, so it is built exactly once. It returns each hit of `translation_<language>:<query>`, in hit order, mapped to `mergedData[ref]`. When every id is its position, this equals the id-based mapping. |
| SearchIndex.ResolveHits | components/search/searchIndex.js:29 | One result per hit, in hit order. Each result is `mergedData[ref]`, or `undefined` when the ref is outside the array. |
| SearchIndex.DocumentsAt | components/search/searchIndex.js:8-18 | Each record is added exactly once, at its own position, under its `id` as ref, with exactly the six declared fields. |
| SearchIndex.DocumentsLength | components/search/searchIndex.js:16-18 | The index holds one document per merged record. |
| SearchIndex.IndexedFieldsDistinct | components/search/searchIndex.js:9-14 | Six distinct fields are indexed. |
| SearchIndex.SearchFieldScope | components/search/searchIndex.js:26 | `translation_<language>` is an indexed field iff the language is `en`, `ps` or `dr`. |
| SearchIndex.QueryStringShape | components/search/searchIndex.js:28 | The query string is the field name, a colon, then the user's query unchanged. |
| SearchIndex.HitIsMatchedRecord | components/search/searchIndex.js:29 | When every id equals its position, the hit on a document resolves to the record the document was built from. |
| SearchIndex.OneBasedIdsMisresolve | components/search/searchIndex.js:29 | With 1-based ids, the hit on the first record returns the second record, and the hit on the last record returns `undefined`. |
| SearchIndex.HitByIdIsMatchedRecord | components/search/searchIndex.js:29 | With distinct ids of any base, lookup by id returns the record each hit's document was built from. |
| SearchIndex.HitResolvesOnlyAtOwnPosition | components/search/searchIndex.js:29 | With distinct ids, `mergedData[ref]` returns a document's own record only when that record's id equals its position. |
| SearchIndex.PositionalCorrectIffIdsArePositions | components/search/searchIndex.js:29 | With distinct ids, `mergedData[ref]` returns every document's own record iff every id equals its position. |
| SearchIndex.ResolveHitsById | components/search/searchIndex.js:29 | The corrected mapping: one result per hit, in hit order, each being the lookup of the ref by id. |
| SearchIndex.PositionalAgreesWithId | components/search/searchIndex.js:29 | When ids are positions, the positional lookup and the lookup by id agree on every ref. |
| SearchIndex.ResolveHitsAgree | components/search/searchIndex.js:29 | When ids are positions, the source's mapping and the id-based one agree on every list of hits. |
| SearchIndex.ResolvedByIdIsRecord | components/search/searchIndex.js:29 | A found result is a merged record carrying the hit's ref. The result is `undefined` exactly when no record carries that ref. |
| SurahDetails.IndexOfName | app/SurahDetails/index.jsx:44-46 | The result is -1 exactly when the name is absent. Otherwise it is the first position holding the name. |
| SurahDetails.NavigationTarget | app/SurahDetails/index.jsx:57-59 | A header button leads to the neighbour at `current + direction` when that name exists and is non-empty. Otherwise it stays on the current surah. Either way the target is the current surah or a listed name. |
| SurahDetails.NavigationStaysAtEnds | app/SurahDetails/index.jsx:57-59 | "Previous" on the first surah and "next" on the last one stay on the same surah. |
| SurahDetails.NavigationFromUnknownSurah | app/SurahDetails/index.jsx:57-59 | For an unknown name, "next" leads to the first surah and "previous" stays put. |
| SurahDetails.NavigationRoundTrip | app/SurahDetails/index.jsx:57-59 | With distinct non-empty names, next-then-previous returns to the start except from the last surah. Previous-then-next returns except from the first. |
| SurahDetails.IndexOfDistinct | app/SurahDetails/index.jsx:44-46 | In a list of distinct names, each name is found at its own position. |
| SurahDetails.SelectTranslation | app/SurahDetails/index.jsx:90-101 | `dari` selects Dari and `english` selects English. Every other setting, `pashto` included, selects Pashto. |
| SurahDetails.SurahVersesLaws | app/SurahDetails/index.jsx:108-114 | For an empty surah name the list is empty. Otherwise it holds exactly the corpus verses whose surah number is the name's index plus one, each as many times as the corpus holds it, in corpus order. |
| SurahDetails.UnknownLanguageShowsPashto | app/SurahDetails/index.jsx:116-122 | For an unrecognised language setting, the translation list is the Pashto verses of the surah. |
| SurahDetails.DisplayedTranslation | app/SurahDetails/index.jsx:189-193 | The first translation verse with the id decides the text: its text is shown, or "Translation not available" when that text is empty. When no translation verse has the id, "Translation not available" is shown. The text is never empty. |
| SurahDetails.DisplayedTranslationOfUniqueId | app/SurahDetails/index.jsx:189-193 | When exactly one translation verse has the id and its text is non-empty, that text is shown. |
| SurahDetails.LongPressBookmarks | app/SurahDetails/index.jsx:131-157 | A missing stored list reads as empty. An already bookmarked id leaves storage untouched, as does any button other than "Bookmark". Otherwise the verse is appended to the stored list. |
| SurahDetails.LongPressKeepsIdsUnique | app/SurahDetails/index.jsx:131-157 | Bookmarking keeps earlier bookmarks in order and never duplicates an id. Afterwards the verse's id is bookmarked. |
| SurahDetails.LongPressIdempotent | app/SurahDetails/index.jsx:131-157 | Bookmarking the same verse twice stores what bookmarking it once does. |
| Seqs.FindFirst | app/SurahDetails/index.jsx:189-191 | `find`: a found element is the element at the first position that passes the test. Nothing is found exactly when no element passes. |
| Hadiths.HadithsOfBookLaws | app/Hadiths/index.jsx:30-34 | The list holds exactly the hadiths whose book, written in decimal, equals the route parameter, each as many times as the dataset holds it, in dataset order. For a parameter that is the decimal form of `n`, these are the hadiths of book `n`. |
| Hadiths.HandleBookmark | app/Hadiths/index.jsx:37-53 | Adds a bookmark iff no stored bookmark has the item's hadith number. When it adds one, it saves the list with the item, carrying its book name, appended. Otherwise storage is unchanged. A missing stored list reads as empty. |
| Hadiths.AddHadithBookmarkExtends | app/Hadiths/index.jsx:42-48 | Existing bookmarks stay as they were, at most one is added, and afterwards the item's hadith number is bookmarked. |
| Hadiths.AddHadithBookmarkIdempotent | app/Hadiths/index.jsx:42-48 | Adding the same hadith twice gives the list that adding it once does. |
| Hadiths.AddHadithBookmarkKeepsDistinct | app/Hadiths/index.jsx:42-48 | Bookmarking never creates a second bookmark for a hadith number. |
| Hadiths.HadithLabel | app/Hadiths/index.jsx:121 | The card's number is the reference's hadith number when that is non-zero, else `hadithnumber`. It is non-zero iff either number is non-zero. |
| Hadiths.HadithListKeysDistinct | app/Hadiths/index.jsx:183-185 | `HadithListKey` gives cards at different positions different keys, whatever their labels. |
| Strings.IntToDecimalInjective | app/Hadiths/index.jsx:32 | `String(a) === String(b)` only when `a == b`, so the book test compares numbers. |
| HadithBooks.BooksArray | app/HadithBooks/index.jsx:27-33 | One book per dataset entry, in order, carrying its number, name and hadith count. |
| HadithBooks.FilteredBooksLaws | app/HadithBooks/index.jsx:35-43 | An empty query shows every book. Otherwise a book is shown iff its lower-cased name or its number contains the lower-cased query. Each shown book appears as many times as in the list, and shown books keep their order. |
| HadithBooks.FilteredBooksIgnoreQueryCase | app/HadithBooks/index.jsx:37-41 | Queries that lower-case alike show the same books. |
| HadithBooks.FilteredBooksIgnoreNameCase | app/HadithBooks/index.jsx:40 | Two books that differ only in the case of their names are shown or hidden together. |
| Strings.Lower | app/HadithBooks/index.jsx:37 | `toLowerCase` keeps the length and lower-cases each character. |
| Strings.LowerIdempotent | app/HadithBooks/index.jsx:37 | Lower-casing twice is lower-casing once. |
| Strings.ContainsAt | app/HadithBooks/index.jsx:40-41 | `includes` holds exactly when the query occurs as a contiguous block at some position. |
| Bookmarks.LoadBookmarks | app/Bookmarks/index.jsx:35-36 | A missing stored list loads as empty. Otherwise the stored list is loaded as is. |
| Bookmarks.DeleteBookmarkLaws | app/Bookmarks/index.jsx:46-50 | Afterwards no bookmark has the id. Every occurrence of every other bookmark remains, in order. Deleting an absent id changes nothing. |
| Bookmarks.DeleteBookmarkIdempotent | app/Bookmarks/index.jsx:46-50 | Deleting an id twice is deleting it once. |
| HadithBookmarks.LoadHadithBookmarks | app/Bookmarks/HadithBookmarks.jsx:25-26 | A missing stored list loads as empty. Otherwise the stored list is loaded as is. |
| HadithBookmarks.DeleteBookmarkLaws | app/Bookmarks/HadithBookmarks.jsx:37-41 | Afterwards no bookmark has the given, possibly missing, id. Every occurrence of every other bookmark remains, in order. Deleting an absent id changes nothing, and deleting twice is deleting once. |
| HadithBookmarks.DeleteIdlessRemovesAllIdless | app/Bookmarks/HadithBookmarks.jsx:82 | Deleting the card of an id-less bookmark removes every id-less bookmark. |
| HadithBookmarks.DeleteBookmarkAt | app/Bookmarks/HadithBookmarks.jsx:82 | Deleting the card at a position removes exactly that card and keeps the others in order. |
| HadithBookmarks.DeleteBookmarkAtAgreesWithUniqueId | app/Bookmarks/HadithBookmarks.jsx:37-41 | For a card whose id no other card shares, deleting by position and deleting by id give the same list. |
| HadithBookmarks.BookmarkKey | app/Bookmarks/HadithBookmarks.jsx:173-182 | The key is the id when there is one. Otherwise it is the non-zero hadith number, then the non-zero reference number, then the position. |
| HadithBookmarks.BookmarkKeysDistinctByIds | app/Bookmarks/HadithBookmarks.jsx:173-176 | Bookmarks with different ids get different keys. |
| HadithBookmarks.CardLanguage | app/Bookmarks/HadithBookmarks.jsx:91 | Takes the `translation_language` lookup if it is non-empty, else the `language` lookup if it is non-empty, else `en`. The result is never empty. |
| HadithBookmarks.IsEnglish | app/Bookmarks/HadithBookmarks.jsx:91-92 | The card is English iff the resolved language starts with `en`. It is English when both lookups return empty strings. |
| Tazbih.Counter.constructor | app/Tazbih/index.jsx:35-37 | The screen starts at count 0, on the first recitation, in vibrate mode. |
| Tazbih.Counter.Increment | app/Tazbih/index.jsx:138-154 | The count goes up by one, with no cap at 1000. The tap gives the feedback `TapFeedback` prescribes for the current mode. |
| Tazbih.Counter.Reset | app/Tazbih/index.jsx:107-109 | The count returns to 0. |
| Tazbih.Counter.SwitchSoundMode | app/Tazbih/index.jsx:130-136 | The mode advances to the next one in the cycle. |
| Tazbih.Counter.NextRecite | app/Tazbih/index.jsx:156-158 | Moves to the next recitation, wrapping to the first. The index stays in range. |
| Tazbih.Counter.PreviousRecite | app/Tazbih/index.jsx:160-164 | Moves to the previous recitation, wrapping to the last. The index stays in range. |
| Tazbih.NextSoundMode | app/Tazbih/index.jsx:130-136 | Pressing the mode button always changes the mode. |
| Tazbih.ThreeSwitchesIdentity | app/Tazbih/index.jsx:130-136 | Three presses return to the starting mode, and two never do. |
| Tazbih.SwitchTimesPeriod | app/Tazbih/index.jsx:130-136 | `k` presses return to the starting mode iff `k` is a multiple of three. |
| Tazbih.TapFeedback | app/Tazbih/index.jsx:145-153 | The tap sound plays iff the mode is sound and the sound has loaded. A vibration happens iff the mode is vibrate. |
| Tazbih.NextReciteIndex | app/Tazbih/index.jsx:157 | The result stays in range. It is one more than the index, or 0 after the last recitation. |
| Tazbih.PreviousReciteIndex | app/Tazbih/index.jsx:161-163 | The result is `count - 1` from the first recitation and `index - 1` otherwise, so it stays in range. |
| Tazbih.ReciteStepsInverse | app/Tazbih/index.jsx:156-164 | "Previous" undoes "next", and "next" undoes "previous". |
| Tazbih.NextTimesWraps | app/Tazbih/index.jsx:157 | Up to `count` presses of "next" advance by `k`, wrapping past the end, so `count` presses return to the start. |

## Left out

- lunr itself is a parameter of `SearchQuran`: tokenising, stemming, scoring and the query syntax. lunr's response to a field the index does not have is library behaviour and is not modelled. `SearchFieldScope` only shows which languages name an indexed field.
- The scope of the field prefix is not modelled. In lunr's query syntax, `field:` applies only to the term right after it. In a query of several words, the words after the first are searched in all six fields, other languages included.
- The i18next lookups `t("translation_language")` and `t("language")` are parameters: the model takes the strings they return. For a key missing from the locale files, i18next returns the key itself, which is non-empty, so the card is then not English.
- `createIndex` failing on malformed records is not modelled, because records are well-typed values here.
- Data files and storage are parameters: the JSON corpora, AsyncStorage, `JSON.parse`/`JSON.stringify` and `parseInt`. The base corpus is a sequence of (key, verse) pairs in `Object.entries` order.
- MergeData.BuildMergedData: assumes the corpus files have the shape the merge reads. If they have the shape the surah and home screens read, `Object.entries(undefined)` at `components/search/mergeData.js:8` throws at import, or lines 9-11 give `""` for every translation. The data files are not part of the source, so which shape they have is not settled here.
- Storage failures (`try`/`catch` with alerts, toasts) are not modelled. The model covers the path where storage succeeds.
- Rendering, navigation, alerts, toasts, the clipboard, sharing, the action sheet's display, animations, timers and loading spinners are left out as UI.
- The tap sound and vibration are not played. `Increment` returns which feedback would happen.
- Tazbih: restoring the count from storage on load and saving it on change are left out as storage I/O.
- Tazbih: the progress ring's fraction of `maxCount` is left out as floating-point display.
- Tazbih.Counter.constructor: requires a non-empty recitation list. With an empty list, "next" computes `(0 + 1) % 0`, which is `NaN`, and "previous" gives -1. The model does not represent either.
- Strings.Lower: lower-cases ASCII letters only. JavaScript's `toLowerCase` also maps non-ASCII capitals.
- Hadiths.HandleBookmark: `reference?.hadith` is modelled as always present. A hadith without a `reference` is not represented; the dataset gives every hadith one.
- HadithBookmarks.BookmarkKey: `toString` of the id is modelled on integer ids only.

## Findings

| source | as written | input that shows it | evidently intended | confidence | as-written member | corrected member |
|---|---|---|---|---|---|---|
| components/search/searchIndex.js:29 | Each hit's ref is the record's `id` (`this.ref("id")`), but the result is looked up as `mergedData[result.ref]`, an array position. | Records with ids 1 and 2 at positions 0 and 1: the hit on the first record returns the second, and the hit on the second returns `undefined`. | Return the record whose `id` is the ref. | not executed; wrong whenever ids are not 0-based positions | SearchIndex.OneBasedIdsMisresolve | SearchIndex.HitByIdIsMatchedRecord |
| app/Bookmarks/HadithBookmarks.jsx:82 | The delete button calls `deleteBookmark(item.id)`, which keeps only bookmarks with `id !== item.id`. The list keys show that bookmarks can lack an `id`. | Two bookmarks without an `id`: deleting either card removes both. | Delete only the card that was swiped. | not executed; needs bookmarks without ids | HadithBookmarks.DeleteIdlessRemovesAllIdless | HadithBookmarks.DeleteBookmarkAt |
