/** The page's global state, the quotes array and selectedCategory, and the handlers of
    dom-manipulation/script.js that read or update it. Persisting to localStorage after
    each change is a snapshot of `quotes` and is not modelled separately. */
module Store {
  import opened Quotes
  import opened Merge

  /** What fetchQuotesFromServer gets: a parsed body, or a failure (network error, a status
      that is not ok, a body that is not an array), which it only logs. */
  datatype ServerResponse = Fetched(posts: seq<ServerPost>) | FetchFailed

  class QuoteStore {
    var quotes: seq<Quote>
    var selectedCategory: string

    /** The start of the script: the stored collection and filter, or the seed and "all".
        A missing key is None. */
    constructor Load(storedQuotes: Option<seq<Quote>>, storedCategory: Option<string>)
      ensures quotes == InitialQuotes(storedQuotes)
      ensures selectedCategory == InitialCategory(storedCategory)
      ensures storedQuotes.None? ==> |quotes| == 3 && quotes[0].id == 1 && quotes[1].id == 2 && quotes[2].id == 3
      ensures storedCategory.None? ==> selectedCategory == AllCategories
    {
      quotes := InitialQuotes(storedQuotes);
      selectedCategory := InitialCategory(storedCategory);
    }

    /** filterQuotesByCategory: records the chosen filter and returns what displayQuotes then
        shows; the collection is not touched. */
    method FilterQuotesByCategory(choice: string) returns (shown: seq<Quote>)
      modifies this`selectedCategory
      ensures selectedCategory == choice
      ensures choice == AllCategories ==> shown == quotes
      ensures choice != AllCategories ==> forall q :: q in shown <==> q in quotes && q.category == choice
      ensures shown == FilteredQuotes(quotes, choice)
    {
      selectedCategory := choice;
      shown := FilteredQuotes(quotes, selectedCategory);
      FilteredQuotesCharacterized(quotes, selectedCategory);
    }

    /** showRandomQuote for the draw u of Math.random: the pool is the whole collection whatever
        the filter, the pick is refused only when the collection is empty, and otherwise the
        quote at index floor(u * |quotes|) is shown. */
    method ShowRandomQuote(u: real) returns (shown: Option<Quote>)
      requires 0.0 <= u < 1.0
      ensures shown.None? <==> quotes == []
      ensures shown.Some? ==> shown.value == quotes[RandomIndex(u, |quotes|)]
      ensures shown == PickRandom(RandomPool(quotes, selectedCategory), u)
    {
      var pool := RandomPool(quotes, selectedCategory);
      if |pool| == 0 {
        shown := None;
      } else {
        shown := Some(pool[RandomIndex(u, |pool|)]);
      }
    }

    /** addNewQuote with the two inputs and the clock reading `now`: nothing changes when either
        trimmed input is empty; otherwise one record with the trimmed fields is appended. */
    method AddNewQuote(rawText: string, rawCategory: string, now: int) returns (added: Option<Quote>)
      modifies this`quotes
      ensures added == NewQuote(rawText, rawCategory, now)
      ensures added.None? ==> quotes == old(quotes)
      ensures added.Some? ==> quotes == old(quotes) + [added.value]
    {
      added := NewQuote(rawText, rawCategory, now);
      if added.Some? {
        quotes := quotes + [added.value];
      }
    }

    /** The load handler of importQuotesFromJsonFile: a parsed array is appended as it is, with
        no check of its elements and no removal of repeated ids; anything else is refused. */
    method ImportQuotesFromJsonFile(payload: ImportPayload) returns (imported: bool)
      modifies this`quotes
      ensures imported <==> payload.JsonArray?
      ensures imported ==> quotes == old(quotes) + payload.items
      ensures !imported ==> quotes == old(quotes)
    {
      match payload
      case JsonArray(items) =>
        quotes := quotes + items;
        imported := true;
      case NotArray =>
        imported := false;
    }

    /** quotes.find(q => q.id === id), as the index of the record found. */
    method FindById(id: int) returns (index: Option<nat>)
      ensures index.Some? ==> index.value < |quotes| && quotes[index.value].id == id
      ensures index.Some? ==> forall j :: 0 <= j < index.value ==> quotes[j].id != id
      ensures index.None? ==> forall j :: 0 <= j < |quotes| ==> quotes[j].id != id
      ensures index == Find(quotes, id)
    {
      var k := 0;
      while k < |quotes| && quotes[k].id != id
        invariant 0 <= k <= |quotes|
        invariant forall j :: 0 <= j < k ==> quotes[j].id != id
      {
        k := k + 1;
      }
      if k == |quotes| {
        index := None;
      } else {
        index := Some(k);
        FindIs(quotes, id, k);
      }
    }

    /** mergeQuotes: each server record in turn is appended when no record has its id, or
        overwrites the text of the first record with its id when that text differs, which
        raises the conflict flag. */
    method MergeQuotes(serverQuotes: seq<Quote>) returns (hasConflict: bool)
      modifies this`quotes
      ensures quotes == MergeAll(old(quotes), serverQuotes).quotes
      ensures hasConflict == MergeAll(old(quotes), serverQuotes).conflict
      ensures quotes == MergedView(old(quotes), serverQuotes)
    {
      hasConflict := false;
      var n := 0;
      while n < |serverQuotes|
        invariant 0 <= n <= |serverQuotes|
        invariant MergeAll(old(quotes), serverQuotes[..n]) == MergeOutcome(quotes, hasConflict)
      {
        var serverQuote := serverQuotes[n];
        var existing := FindById(serverQuote.id);
        match existing {
          case None =>
            quotes := quotes + [serverQuote];
          case Some(i) =>
            if quotes[i].text != serverQuote.text {
              hasConflict := true;
              quotes := quotes[i := quotes[i].(text := serverQuote.text)];
            }
        }
        assert serverQuotes[..n + 1][..n] == serverQuotes[..n];
        n := n + 1;
      }
      assert serverQuotes[..n] == serverQuotes;
      MergeAllIsMergedView(old(quotes), serverQuotes);
    }

    /** fetchQuotesFromServer: the first five posts of a response, formatted, are merged;
        a failed fetch changes nothing. */
    method FetchQuotesFromServer(response: ServerResponse) returns (hasConflict: bool)
      modifies this`quotes
      ensures response.FetchFailed? ==> quotes == old(quotes) && !hasConflict
      ensures response.Fetched? ==>
        MergeOutcome(quotes, hasConflict) == MergeAll(old(quotes), FormatServerQuotes(response.posts))
    {
      match response
      case FetchFailed =>
        hasConflict := false;
      case Fetched(posts) =>
        hasConflict := MergeQuotes(FormatServerQuotes(posts));
    }
  }
}
