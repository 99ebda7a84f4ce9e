/** The type-ahead endpoint: titles of the rating index that contain the
    query, case-insensitively, in index order, at most ten of them. */
module Suggest {
  import opened Text
  import opened Seqs
  import opened Wrappers

  /** Queries shorter than this (after lower-casing) get no suggestions. */
  const MinQueryLength := 2
  /** At most this many suggestions are returned. */
  const MaxSuggestions := 10

  /** `request.args.get('q', '')`: a missing parameter reads as "". */
  function QueryText(q: Option<string>): string {
    match q
    case Some(s) => s
    case None => ""
  }

  /** The comprehension's test `query in book.lower()`, for a query that is
      already lower-case. */
  function MatchesQuery(query: string): string -> bool {
    title => Contains(Lower(title), query)
  }

  /** `search_suggestions`: the first ten index titles whose lower-case form
      contains the lower-cased query, or none for a too-short query. */
  function SearchSuggestions(titles: seq<string>, q: Option<string>): (r: seq<string>)
    ensures |Lower(QueryText(q))| < MinQueryLength ==> r == []
    ensures |r| <= MaxSuggestions
    ensures forall t :: t in r ==> t in titles && Contains(Lower(t), Lower(QueryText(q)))
  {
    var query := Lower(QueryText(q));
    if |query| < MinQueryLength then []
    else
      var matching := Filter(titles, MatchesQuery(query));
      matching[..Min(|matching|, MaxSuggestions)]
  }

  /** For a long enough query, the suggestions are exactly the first
      min(10, k) of the k matching titles: the list has that length, and a
      matching title with fewer than ten matches before it sits at the
      position given by the number of those earlier matches (so none is
      skipped and the index order is kept). */
  lemma SuggestionsAreFirstMatches(titles: seq<string>, q: Option<string>)
    requires |Lower(QueryText(q))| >= MinQueryLength
    ensures var query := Lower(QueryText(q));
            var r := SearchSuggestions(titles, q);
            && |r| == Min(MaxSuggestions, Count(titles, MatchesQuery(query)))
            && forall i :: 0 <= i < |titles| && Contains(Lower(titles[i]), query)
                 && Count(titles[..i], MatchesQuery(query)) < MaxSuggestions
                 ==> && Count(titles[..i], MatchesQuery(query)) < |r|
                     && r[Count(titles[..i], MatchesQuery(query))] == titles[i]
  {
    var query := Lower(QueryText(q));
    FilterLength(titles, MatchesQuery(query));
    forall i | 0 <= i < |titles| && Contains(Lower(titles[i]), query)
      ensures Count(titles[..i], MatchesQuery(query)) < |Filter(titles, MatchesQuery(query))|
      ensures Filter(titles, MatchesQuery(query))[Count(titles[..i], MatchesQuery(query))] == titles[i]
    {
      FilterPlaces(titles, MatchesQuery(query), i);
    }
  }
}
