# Book recommender request logic, modelled in Dafny

The repository serves book recommendations from four precomputed tables: a
rating pivot table whose row index is the list of known titles, a square
item-item similarity matrix aligned with that index, a books table of
(title, author, cover image) records, and a popularity table for the
landing page. This project models the two request handlers that contain
logic, as pure functions over those tables passed in as immutable
sequences:

- **Suggestions** (`search_suggestions`): the query is lower-cased; a query
  shorter than 2 characters gives no suggestions; otherwise the first 10
  index titles whose lower-case form contains the query, in index order.
- **Recommendation** (`recommend`), in three steps:
  - *Title resolution.* A missing, empty or whitespace-only input is an
    error. A title present in the index is used as given. Otherwise the
    first index title equal to it case-insensitively is used. Otherwise
    the result is a "not found" error naming the input. The resolved
    title's row is its first position in the index.
  - *Ranking.* The similarity row is enumerated into (position, score)
    pairs and stably sorted by score, descending; slice `[1:6]` keeps
    ranks two to six.
  - *Cards.* Each kept position becomes a card when the books table has a
    record with that title. The card takes author and image from the first
    such record. A position outside the index, or a resolved row outside
    the matrix, aborts the request with the processing error.

Modules: `Wrappers` (`Option` and `Result`), `Text` (ASCII `lower`, Python
whitespace, substring test), `Seqs` (filter, count and first match over
sequences), `Suggest`, `Ranking`
(the stable descending sort and the slice) and `Recommend` (resolution,
cards, the handler, its errors and their messages). Similarity scores are
integers: only their order and their value, carried into the card, are used. Strings are sequences of characters.

## Model

| member | source | states |
|---|---|---|
| `Suggest.SearchSuggestions` | app.py:42-51 | a lower-cased query shorter than 2 gives no suggestions; never more than 10; every suggestion is an index title whose lower-case form contains the lower-cased query; a missing query reads as "" |
| `Suggest.SuggestionsAreFirstMatches` | app.py:50-51 | the suggestions are exactly the first min(10, k) of the k matching titles: that many of them, and each match with fewer than 10 matches before it sits at the position counting those earlier matches, so index order is kept and no match is skipped |
| `Text.ContainsIffOccurs` | app.py:50 | the substring test holds exactly when the query occurs at some offset of the title |
| `Recommend.Resolve` | app.py:55-70 | the empty-input error exactly for a missing, empty or whitespace-only input; an input in the index is used unchanged; for other non-blank input, "not found" naming the input exactly when no index title equals it case-insensitively; any resolved title is in the index and case-insensitively equal to the input |
| `Recommend.ResolveFirstFold` | app.py:62-66 | an input outside the index resolves to the first index title equal to it case-insensitively |
| `Recommend.CaseVariantSameAnswer` | app.py:62-66 | a case variant of a title gives the same answer as the title itself when that title is the first of its case-insensitive class in the index and the variant is not itself another index title |
| `Recommend.Message` | app.py:68-70 | the not-found message embeds the input verbatim after the text "Book '" |
| `Recommend.MessageIdentifiesError` | app.py:57-70 | the three error messages are pairwise different, and two not-found messages differ when their inputs do |
| `Recommend.Position` | app.py:73 | the resolved title's row is its first occurrence in the index |
| `Ranking.SortByScore` | app.py:74 | the sort returns a permutation of the enumerated pairs |
| `Ranking.SortIsScoreOrdered` | app.py:74-75 | the sorted pairs have non-increasing scores |
| `Ranking.SortIsRanked` | app.py:74-75 | stability: for pairs in ascending position order, ties come out in ascending position, so each pair outranks every later one |
| `Ranking.RankingUnique` | app.py:74-75 | two ranked sequences with the same elements are equal, so the stable sort has exactly one possible result |
| `Ranking.Select` | app.py:74-75 | the selection has min(n, 6) - 1 pairs for a row of n > 1 entries and none otherwise, so at most 5; each is a valid position with its own score; scores are non-increasing and ties are in ascending position |
| `Ranking.SelectIsRanksTwoToSix` | app.py:74-75 | the selection equals ranks two to six of any sequence that lists each (position, score) pair once by descending score, ties by ascending position |
| `Ranking.SelectedOutrankRest` | app.py:74-75 | a position that is neither selected nor ranked first is outranked by every selected position |
| `Ranking.SelfExcludedWhenStrictMax` | app.py:74-75 | when the searched book scores strictly highest in its own row, it is not recommended |
| `Ranking.SelectedIffRankTwoToSix` | app.py:74-75 | a position is selected exactly when between one and five positions of the row outrank it (higher score, or equal score and earlier position) |
| `Recommend.Card` | app.py:80-86 | a card exists exactly when the books table has a row with the title; it carries that title and the pair's score |
| `Recommend.CardUsesFirstRecord` | app.py:80-85 | author and image come from the first books row with the title |
| `Recommend.Assemble` | app.py:77-94 | a processing error exactly when some selected position is outside the index; otherwise one card per selected pair whose title has a record, each card being the books table's card for an index title |
| `Recommend.AssemblePlacesCards` | app.py:77-87 | cards keep selection order without skipping: the card of a usable pair sits after the cards of the usable pairs before it |
| `Recommend.AssembleKeepsScoreOrder` | app.py:77-87 | cards built from a score-ordered selection have non-increasing similarity |
| `Recommend.Answer` | app.py:72-94 | for a resolved title: the processing error exactly when its position has no matrix row or a selected position is outside the index; otherwise one card per selected pair of its row whose title has a books record, at most 5, similarities non-increasing |
| `Recommend.Recommend` | app.py:53-94 | an error is only ever the empty-input error, the processing error, or "not found" naming the input itself; the empty-input error exactly for a missing or blank input; for other input, "not found" exactly when no index title equals it case-insensitively; the processing error exactly when the resolved title has no matrix row or a selected position of its row is outside the index; on success the searched title is the resolved one, the card count is the number of selected pairs of its row whose title has a books record (at most 5), similarities are non-increasing, and each card is the books table's card for an index title |
| `Recommend.RecommendPlacesCards` | app.py:74-87 | the cards are ranks two to six of the resolved title's row in order, without skipping: each usable selected pair has its card right after the cards of the usable pairs before it, with the row's score at its position as similarity |

## Left out

- Flask routing, `render_template`, `jsonify`, the `/recommend` form view and `app.run` (app.py:1, 26-40, 100-101): request and presentation plumbing. Form and query parameters are `Option<string>` inputs instead.
- Loading the four pickled tables (app.py:8-24): file I/O. The tables are parameters of the handlers.
- The landing view (app.py:28-36): it only lists columns of the popularity table.
- The generic `except Exception` branch and its "Error: ..." message (app.py:95-98): it would catch only faults of the libraries underneath, which are not modelled.
- Recommend.Recommend: the card's similarity is the raw score, not `round(score, 3)`, because scores are modelled as integers rather than floating point.
- Text.Lower: lower-cases ASCII letters only; Python's `str.lower` also folds non-ASCII letters.
- Recommend.Card: pandas' `drop_duplicates` is modelled as "take the first row with the title". Its empty-column fallbacks to '' (app.py:83-85) are left out because the rows they read are never empty once a row matched.
- Suggest.SearchSuggestions: the result is a sequence of titles, not its JSON encoding.

## Notes on the code's behaviour

- The comment at app.py:75 reads "Get top 5 recommendations". The code drops only the top-ranked pair and keeps ranks two to six. It yields fewer than five cards when the row has fewer than six entries or a title has no books record. The slice removes only the top-ranked pair, so the searched book is not shown when it ranks first or seventh or lower. It is recommended when one to five positions outrank it, for example when its self score ties with an earlier position (`SelectedIffRankTwoToSix`).
- A title typed in a different case gives the same answer as the index title it matches, provided that index title is the first case-insensitive match in index order. The typed text must also not itself be another index title, since app.py:62 uses an exact index title unchanged (`CaseVariantSameAnswer`).
