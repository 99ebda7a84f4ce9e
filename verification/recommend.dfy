/** The `recommend_books` handler: resolve the submitted title against the
    rating index, rank its similarity row, and turn the selected positions
    into book cards. The four loaded tables are parameters:
    `titles` is the rating index, `matrix` the similarity matrix (one row
    per index position) and `books` the books table in row order. */
module Recommend {
  import opened Text
  import opened Seqs
  import opened Wrappers
  import opened Ranking

  /** One row of the books table: `Book-Title`, `Book-Author`, `Image-URL-M`. */
  datatype BookRecord = BookRecord(title: string, author: string, image: string)

  /** One recommendation card. */
  datatype Item = Item(title: string, author: string, image: string, similarity: int)

  /** The errors the page can show. */
  datatype Error =
    | EmptyInput
    | NotFound(input: string)
    | ProcessingError

  /** A successful answer: the title searched for and the cards. */
  datatype Page = Page(searched: string, items: seq<Item>)

  /** The text shown for each error; the not-found text names the input. */
  function Message(e: Error): (m: string)
    ensures e.NotFound? ==> |m| > 6 + |e.input| && m[..6] == "Book '" && m[6..6 + |e.input|] == e.input
  {
    match e
    case EmptyInput => "Please enter a book name."
    case NotFound(u) => "Book '" + u + "' not found. Please try another book."
    case ProcessingError => "An error occurred while processing your request."
  }

  /** Different errors show different texts. */
  lemma MessageIdentifiesError(e: Error, f: Error)
    requires Message(e) == Message(f)
    ensures e == f
  {
  }

  /** The comprehension's test `book.lower() == user_input.lower()`. */
  function SameFold(u: string): string -> bool {
    (t: string) => Lower(t) == Lower(u)
  }

  /** i is the first index position whose title equals u case-insensitively. */
  predicate FirstFoldAt(titles: seq<string>, u: string, i: int) {
    0 <= i < |titles| && Lower(titles[i]) == Lower(u)
    && forall j :: 0 <= j < i ==> Lower(titles[j]) != Lower(u)
  }

  /** Title resolution: a missing or blank input is rejected; a title in the
      index is used as given; otherwise the first index title equal to it
      case-insensitively replaces it; otherwise it is not found. */
  function Resolve(titles: seq<string>, input: Option<string>): (r: Result<string, Error>)
    ensures r == Err(EmptyInput) <==> input.None? || Blank(input.value)
    ensures r.Err? ==> r.error == EmptyInput || (input.Some? && r.error == NotFound(input.value))
    ensures r.Ok? ==> input.Some? && r.value in titles && Lower(r.value) == Lower(input.value)
    ensures input.Some? && !Blank(input.value) && input.value in titles ==> r == Ok(input.value)
    ensures input.Some? && !Blank(input.value) ==>
              (r == Err(NotFound(input.value)) <==>
               forall i :: 0 <= i < |titles| ==> Lower(titles[i]) != Lower(input.value))
  {
    match input
    case None => Err(EmptyInput)
    case Some(u) =>
      if Blank(u) then Err(EmptyInput)
      else if u in titles then Ok(u)
      else
        var matching := Filter(titles, SameFold(u));
        if |matching| > 0 then Ok(matching[0]) else Err(NotFound(u))
  }

  /** First-match semantics: an input outside the index resolves to the
      first index title equal to it case-insensitively. */
  lemma ResolveFirstFold(titles: seq<string>, u: string, i: int)
    requires !Blank(u) && u !in titles
    requires FirstFoldAt(titles, u, i)
    ensures Resolve(titles, Some(u)) == Ok(titles[i])
  {
    FilterHead(titles, SameFold(u), i);
  }

  /** `np.where(pt.index == title)[0][0]`: the first position of the title. */
  function Position(titles: seq<string>, title: string): (r: nat)
    requires title in titles
    ensures r < |titles| && titles[r] == title
    ensures forall j :: 0 <= j < r ==> titles[j] != title
  {
    if titles[0] == title then 0 else 1 + Position(titles[1..], title)
  }

  /** `books['Book-Title'] == title`. */
  function HasTitle(title: string): BookRecord -> bool {
    (b: BookRecord) => b.title == title
  }

  /** i is the first row of the books table with this title. */
  predicate FirstRecordAt(books: seq<BookRecord>, title: string, i: int) {
    0 <= i < |books| && books[i].title == title
    && forall j :: 0 <= j < i ==> books[j].title != title
  }

  /** The card for one title: the books table's rows with that title,
      de-duplicated by title (which keeps the first), give the author and
      image; no card when the table has no such row. */
  function Card(books: seq<BookRecord>, title: string, similarity: int): (r: Option<Item>)
    ensures r.None? <==> forall i :: 0 <= i < |books| ==> books[i].title != title
    ensures r.Some? ==> r.value.title == title && r.value.similarity == similarity
  {
    var rows := Filter(books, HasTitle(title));
    if |rows| == 0 then None
    else
      assert rows[0] in rows;
      Some(Item(rows[0].title, rows[0].author, rows[0].image, similarity))
  }

  /** Author and image come from the first row with the title. */
  lemma CardUsesFirstRecord(books: seq<BookRecord>, title: string, similarity: int, i: int)
    requires FirstRecordAt(books, title, i)
    ensures Card(books, title, similarity)
            == Some(Item(title, books[i].author, books[i].image, similarity))
  {
    FilterHead(books, HasTitle(title), i);
  }

  /** A selected pair gives a card when the books table knows its title. */
  function Usable(titles: seq<string>, books: seq<BookRecord>): Scored -> bool {
    (p: Scored) => p.pos < |titles| && Card(books, titles[p.pos], p.score).Some?
  }

  /** The loop over the selected pairs: `pt.index[i[0]]` fails on a position
      outside the index, which aborts the whole request; otherwise each pair
      whose title has a record contributes its card, in selection order. */
  function Assemble(titles: seq<string>, books: seq<BookRecord>, sel: seq<Scored>): (r: Result<seq<Item>, Error>)
    ensures r.Err? <==> exists k :: 0 <= k < |sel| && sel[k].pos >= |titles|
    ensures r.Err? ==> r.error == ProcessingError
    ensures r.Ok? ==> |r.value| == Count(sel, Usable(titles, books)) <= |sel|
    ensures r.Ok? ==> forall it :: it in r.value ==>
              it.title in titles && Card(books, it.title, it.similarity) == Some(it)
  {
    if exists k :: 0 <= k < |sel| && sel[k].pos >= |titles| then Err(ProcessingError)
    else
      var kept := Filter(sel, Usable(titles, books));
      FilterLength(sel, Usable(titles, books));
      assert forall k :: 0 <= k < |kept| ==> Usable(titles, books)(kept[k]);
      Ok(seq(|kept|, k requires 0 <= k < |kept| => Card(books, titles[kept[k].pos], kept[k].score).value))
  }

  /** The cards follow the selection without skipping: the card of the k-th
      selected pair, when it has one, comes right after the cards of the
      pairs before it. */
  lemma AssemblePlacesCards(titles: seq<string>, books: seq<BookRecord>, sel: seq<Scored>, k: int)
    requires Assemble(titles, books, sel).Ok?
    requires 0 <= k < |sel| && Usable(titles, books)(sel[k])
    ensures var items := Assemble(titles, books, sel).value;
            var n := Count(sel[..k], Usable(titles, books));
            n < |items| && Some(items[n]) == Card(books, titles[sel[k].pos], sel[k].score)
  {
    FilterPlaces(sel, Usable(titles, books), k);
  }

  /** Cards keep the order of the selection's scores. */
  lemma AssembleKeepsScoreOrder(titles: seq<string>, books: seq<BookRecord>, sel: seq<Scored>)
    requires ScoreOrdered(sel)
    requires Assemble(titles, books, sel).Ok?
    ensures var items := Assemble(titles, books, sel).value;
            forall i, j :: 0 <= i < j < |items| ==> items[i].similarity >= items[j].similarity
  {
    var rel := (a: Scored, b: Scored) => a.score >= b.score;
    var kept := Filter(sel, Usable(titles, books));
    FilterKeepsOrder(sel, Usable(titles, books), rel);
    var items := Assemble(titles, books, sel).value;
    assert |items| == |kept|;
    forall k | 0 <= k < |items|
      ensures items[k].similarity == kept[k].score
    {
      assert kept[k] in kept;
      assert items[k] == Card(books, titles[kept[k].pos], kept[k].score).value;
    }
  }

  /** `similarity_scores[index]` exists for the resolved title's position. */
  predicate HasRow(titles: seq<string>, matrix: seq<seq<int>>, title: string)
    requires title in titles
  {
    Position(titles, title) < |matrix|
  }

  /** The pairs ranked two to six in the resolved title's similarity row. */
  function Selection(titles: seq<string>, matrix: seq<seq<int>>, title: string): seq<Scored>
    requires title in titles && HasRow(titles, matrix, title)
  {
    Select(matrix[Position(titles, title)])
  }

  /** The part of `recommend` after resolution: rank the title's row
      (`similarity_scores[index]` fails past the last row) and build the
      cards from ranks two to six. */
  function Answer(titles: seq<string>, matrix: seq<seq<int>>, books: seq<BookRecord>,
                  title: string): (r: Result<Page, Error>)
    requires title in titles
    ensures r.Err? ==> r.error == ProcessingError
    ensures r.Err? <==> !HasRow(titles, matrix, title)
                        || exists k :: 0 <= k < |Selection(titles, matrix, title)|
                             && Selection(titles, matrix, title)[k].pos >= |titles|
    ensures r.Ok? ==> && r.value.searched == title
                      && HasRow(titles, matrix, title)
                      && |r.value.items|
                         == Count(Selection(titles, matrix, title), Usable(titles, books))
                      && |r.value.items| <= RecommendationCount
    ensures r.Ok? ==> forall i, j :: 0 <= i < j < |r.value.items| ==>
              r.value.items[i].similarity >= r.value.items[j].similarity
    ensures r.Ok? ==> forall it :: it in r.value.items ==>
              it.title in titles && Card(books, it.title, it.similarity) == Some(it)
  {
    if !HasRow(titles, matrix, title) then Err(ProcessingError)
    else
      var sel := Selection(titles, matrix, title);
      match Assemble(titles, books, sel)
      case Err(e) => Err(e)
      case Ok(items) =>
        AssembleKeepsScoreOrder(titles, books, sel);
        Ok(Page(title, items))
  }

  /** `recommend`: resolution, then the answer for the resolved title. */
  function Recommend(titles: seq<string>, matrix: seq<seq<int>>, books: seq<BookRecord>,
                     input: Option<string>): (r: Result<Page, Error>)
    ensures r.Err? ==> || r.error == EmptyInput
                       || r.error == ProcessingError
                       || (input.Some? && r.error == NotFound(input.value))
    ensures r == Err(EmptyInput) <==> input.None? || Blank(input.value)
    ensures input.Some? && !Blank(input.value) ==>
              (r == Err(NotFound(input.value)) <==>
               forall i :: 0 <= i < |titles| ==> Lower(titles[i]) != Lower(input.value))
    ensures var res := Resolve(titles, input);
            r == Err(ProcessingError) <==>
              res.Ok? && (!HasRow(titles, matrix, res.value)
                          || exists k :: 0 <= k < |Selection(titles, matrix, res.value)|
                               && Selection(titles, matrix, res.value)[k].pos >= |titles|)
    ensures r.Ok? ==> Resolve(titles, input) == Ok(r.value.searched)
    ensures r.Ok? ==> && r.value.searched in titles
                      && HasRow(titles, matrix, r.value.searched)
                      && |r.value.items|
                         == Count(Selection(titles, matrix, r.value.searched), Usable(titles, books))
    ensures r.Ok? ==> |r.value.items| <= RecommendationCount
    ensures r.Ok? ==> forall i, j :: 0 <= i < j < |r.value.items| ==>
              r.value.items[i].similarity >= r.value.items[j].similarity
    ensures r.Ok? ==> forall it :: it in r.value.items ==>
              it.title in titles && Card(books, it.title, it.similarity) == Some(it)
  {
    match Resolve(titles, input)
    case Err(e) => Err(e)
    case Ok(title) => Answer(titles, matrix, books, title)
  }

  /** The cards are ranks two to six of the resolved title's row, in that
      order, without skipping: the pair at index k of the selection, when its
      title has a books record, has its card right after the cards of the
      usable pairs before it, carrying the row's score at its position. */
  lemma RecommendPlacesCards(titles: seq<string>, matrix: seq<seq<int>>, books: seq<BookRecord>,
                             input: Option<string>, k: int)
    requires Recommend(titles, matrix, books, input).Ok?
    requires var t := Recommend(titles, matrix, books, input).value.searched;
             0 <= k < |Selection(titles, matrix, t)| && Usable(titles, books)(Selection(titles, matrix, t)[k])
    ensures var page := Recommend(titles, matrix, books, input).value;
            var sel := Selection(titles, matrix, page.searched);
            var row := matrix[Position(titles, page.searched)];
            var n := Count(sel[..k], Usable(titles, books));
            && n < |page.items|
            && page.items[n].title == titles[sel[k].pos]
            && page.items[n].similarity == row[sel[k].pos]
            && Some(page.items[n]) == Card(books, titles[sel[k].pos], sel[k].score)
  {
    var t := Recommend(titles, matrix, books, input).value.searched;
    AssemblePlacesCards(titles, books, Selection(titles, matrix, t), k);
  }

  /** A case variant of a title gives the same answer as the title itself,
      provided the title is the first of its case-insensitive class in the
      index and the variant is not itself another index title. */
  lemma CaseVariantSameAnswer(titles: seq<string>, matrix: seq<seq<int>>, books: seq<BookRecord>,
                              u: string, i: int)
    requires FirstFoldAt(titles, u, i)
    requires u in titles ==> u == titles[i]
    requires !Blank(u)
    ensures Recommend(titles, matrix, books, Some(u)) == Recommend(titles, matrix, books, Some(titles[i]))
  {
    BlankUnderLower(u);
    BlankUnderLower(titles[i]);
    if u !in titles {
      ResolveFirstFold(titles, u, i);
    }
  }
}
