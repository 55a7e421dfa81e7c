/** The quote records of dom-manipulation/script.js and the pure expressions the page
    computes over them: the lookup by id, the category filter, the random-pick pool,
    the list of distinct categories, the record built by the add form and the
    formatting of a server batch. */
module Quotes {
  import opened JsString
  import opened Sequences

  datatype Option<T> = None | Some(value: T)

  /** A record of the global quotes array. */
  datatype Quote = Quote(id: int, text: string, category: string)

  /** The value of selectedCategory that stands for "every category". */
  const AllCategories: string := "all"

  /** The three records the page starts from when nothing is stored. */
  const SeedQuotes: seq<Quote> := [
    Quote(1, "The only limit to our realization of tomorrow is our doubts of today.", "Motivation"),
    Quote(2, "In the middle of every difficulty lies opportunity.", "Inspiration"),
    Quote(3, "Success is not final, failure is not fatal: it is the courage to continue that counts.", "Success")
  ]

  /** The collection the page starts with: the stored array when one was stored (even an
      empty one, which is truthy), the seed otherwise. */
  function InitialQuotes(stored: Option<seq<Quote>>): (qs: seq<Quote>)
    ensures stored.None? ==> qs == SeedQuotes && |qs| == 3
    ensures stored.Some? ==> qs == stored.value
  {
    match stored
    case Some(saved) => saved
    case None => SeedQuotes
  }

  /** The category filter the page starts with: the stored one unless it is missing or
      empty, "all" otherwise. */
  function InitialCategory(stored: Option<string>): (c: string)
    ensures c != ""
    ensures stored.Some? && stored.value != "" ==> c == stored.value
    ensures stored.None? || stored.value == "" ==> c == AllCategories
  {
    if stored.Some? && Truthy(stored.value) then stored.value else AllCategories
  }

  predicate HasId(qs: seq<Quote>, id: int) {
    exists i :: 0 <= i < |qs| && qs[i].id == id
  }

  /** Array.prototype.find with the test q.id === id: the index of the first record
      carrying id, if any. */
  function Find(qs: seq<Quote>, id: int): (r: Option<nat>)
    ensures r.Some? ==> r.value < |qs| && qs[r.value].id == id
    ensures r.Some? ==> forall j :: 0 <= j < r.value ==> qs[j].id != id
    ensures r.None? <==> !HasId(qs, id)
  {
    if |qs| == 0 then None
    else if qs[0].id == id then Some(0)
    else match Find(qs[1..], id)
      case None => None
      case Some(k) => Some(k + 1)
  }

  /** The index of the last record carrying id, if any. */
  function FindLast(qs: seq<Quote>, id: int): (r: Option<nat>)
    ensures r.Some? ==> r.value < |qs| && qs[r.value].id == id
    ensures r.Some? ==> forall j :: r.value < j < |qs| ==> qs[j].id != id
    ensures r.None? <==> !HasId(qs, id)
  {
    if |qs| == 0 then None
    else if qs[|qs| - 1].id == id then Some(|qs| - 1)
    else FindLast(qs[..|qs| - 1], id)
  }

  /** Find is pinned down by its three properties. */
  lemma FindIs(qs: seq<Quote>, id: int, p: nat)
    requires p < |qs| && qs[p].id == id
    requires forall j :: 0 <= j < p ==> qs[j].id != id
    ensures Find(qs, id) == Some(p)
  {
  }

  /** Find and FindLast, unfolded at the end of the sequence. */
  lemma FindSnoc(qs: seq<Quote>, x: Quote, id: int)
    ensures HasId(qs + [x], id) <==> HasId(qs, id) || x.id == id
    ensures Find(qs + [x], id) ==
      if HasId(qs, id) then Find(qs, id) else if x.id == id then Some(|qs|) else None
    ensures FindLast(qs + [x], id) == if x.id == id then Some(|qs|) else FindLast(qs, id)
  {
    var s := qs + [x];
    assert s[..|qs|] == qs;
    if HasId(qs, id) {
      var p := Find(qs, id).value;
      assert s[p].id == id;
      FindIs(s, id, p);
    } else if x.id == id {
      assert s[|qs|].id == id;
      FindIs(s, id, |qs|);
    } else {
      assert forall j :: 0 <= j < |s| ==> s[j].id != id by {
        forall j | 0 <= j < |s| ensures s[j].id != id {
          if j < |qs| { assert s[j] == qs[j]; }
        }
      }
    }
  }

  /** quotes.filter(quote => quote.category === c). */
  function WithCategory(qs: seq<Quote>, c: string): (r: seq<Quote>)
    ensures |r| <= |qs|
    ensures forall k :: 0 <= k < |r| ==> r[k] in qs && r[k].category == c
    ensures forall i :: 0 <= i < |qs| && qs[i].category == c ==> qs[i] in r
  {
    if |qs| == 0 then []
    else (if qs[0].category == c then [qs[0]] else []) + WithCategory(qs[1..], c)
  }

  /** The filter keeps the original order: filtering a concatenation is concatenating the
      filtered pieces. */
  lemma {:induction false} WithCategoryDistributes(a: seq<Quote>, b: seq<Quote>, c: string)
    ensures WithCategory(a + b, c) == WithCategory(a, c) + WithCategory(b, c)
  {
    if |a| == 0 {
      assert a + b == b;
    } else {
      assert (a + b)[0] == a[0];
      assert (a + b)[1..] == a[1..] + b;
      WithCategoryDistributes(a[1..], b, c);
    }
  }

  /** The records displayQuotes shows: all of them for "all", those of the selected
      category otherwise. */
  function FilteredQuotes(qs: seq<Quote>, selected: string): (r: seq<Quote>)
    ensures |r| <= |qs|
    ensures forall k :: 0 <= k < |r| ==> r[k] in qs
  {
    if selected == AllCategories then qs else WithCategory(qs, selected)
  }

  /** What the display filter yields, and that an empty result means that no record has the
      selected category. */
  lemma FilteredQuotesCharacterized(qs: seq<Quote>, selected: string)
    ensures selected == AllCategories ==> FilteredQuotes(qs, selected) == qs
    ensures selected != AllCategories ==>
      forall q :: q in FilteredQuotes(qs, selected) <==> q in qs && q.category == selected
    ensures selected != AllCategories ==>
      (FilteredQuotes(qs, selected) == [] <==> forall i :: 0 <= i < |qs| ==> qs[i].category != selected)
  {
    if selected != AllCategories {
      var r := FilteredQuotes(qs, selected);
      forall q | q in qs && q.category == selected ensures q in r {
        var i :| 0 <= i < |qs| && qs[i] == q;
      }
      if r != [] {
        assert r[0] in qs;
      }
    }
  }

  /** The pool showRandomQuote picks from, as written: its condition is the constant string
      "all", which is truthy, so the filter branch is never taken. */
  function RandomPool(qs: seq<Quote>, selected: string): (pool: seq<Quote>)
    ensures pool == qs
  {
    if Truthy(AllCategories) then qs else WithCategory(qs, selected)
  }

  /** Math.floor(u * n) for a draw u of Math.random, which lies in [0, 1). */
  function RandomIndex(u: real, n: nat): (i: nat)
    requires 0.0 <= u < 1.0 && n > 0
    ensures i < n
    ensures i as real <= u * n as real < i as real + 1.0
  {
    assert 0.0 <= u * n as real < n as real by {
      assert u * n as real <= 1.0 * n as real;
    }
    (u * n as real).Floor
  }

  /** The quote showRandomQuote displays for the draw u, or None when it alerts that there is
      nothing to show. */
  function PickRandom(pool: seq<Quote>, u: real): (r: Option<Quote>)
    requires 0.0 <= u < 1.0
    ensures r.None? <==> pool == []
    ensures r.Some? ==> r.value in pool
  {
    if |pool| == 0 then None else Some(pool[RandomIndex(u, |pool|)])
  }

  /** With a filter that no record matches, the page shows "no quotes" while the random pick
      still shows a quote: the pool does not follow the filter. */
  lemma RandomPickIgnoresEmptyFilter(u: real)
    requires 0.0 <= u < 1.0
    ensures FilteredQuotes(SeedQuotes, "Humor") == []
    ensures PickRandom(RandomPool(SeedQuotes, "Humor"), u).Some?
    ensures PickRandom(RandomPool(SeedQuotes, "Humor"), u).value.category != "Humor"
  {
    FilteredQuotesCharacterized(SeedQuotes, "Humor");
  }

  /** quotes.map(quote => quote.category). */
  function Categories(qs: seq<Quote>): (cs: seq<string>)
    ensures |cs| == |qs| && forall i :: 0 <= i < |qs| ==> cs[i] == qs[i].category
  {
    seq(|qs|, i requires 0 <= i < |qs| => qs[i].category)
  }

  /** [...new Set(quotes.map(quote => quote.category))]: the options populateCategories adds. */
  function UniqueCategories(qs: seq<Quote>): (cs: seq<string>)
    ensures NoDuplicates(cs)
    ensures forall k :: 0 <= k < |cs| ==> cs[k] in Categories(qs)
  {
    Distinct(Categories(qs))
  }

  /** Every category of the collection is listed exactly once, nothing else is, and the list
      follows the order in which the categories first appear. */
  lemma UniqueCategoriesListsEachOnce(qs: seq<Quote>)
    ensures forall i :: 0 <= i < |qs| ==> qs[i].category in UniqueCategories(qs)
    ensures forall c :: c in UniqueCategories(qs) ==> exists i :: 0 <= i < |qs| && qs[i].category == c
    ensures NoDuplicates(UniqueCategories(qs))
    ensures forall i, j :: 0 <= i < j < |UniqueCategories(qs)| ==>
      IndexOf(Categories(qs), UniqueCategories(qs)[i]) < IndexOf(Categories(qs), UniqueCategories(qs)[j])
  {
    var cs := Categories(qs);
    DistinctKeepsFirstSeenOrder(cs);
    forall c | c in UniqueCategories(qs) ensures exists i :: 0 <= i < |qs| && qs[i].category == c {
      var i := IndexOf(cs, c);
      assert qs[i].category == c;
    }
  }

  /** The record addNewQuote builds from the two inputs and the clock reading id, or None when
      either input is empty once trimmed (the alert path). */
  function NewQuote(rawText: string, rawCategory: string, id: int): (r: Option<Quote>)
    ensures r.None? <==> AllTrimmable(rawText) || AllTrimmable(rawCategory)
    ensures r.Some? ==> r.value.id == id && r.value.text == Trim(rawText) && r.value.category == Trim(rawCategory)
    ensures r.Some? ==> r.value.text != "" && r.value.category != ""
  {
    var text, category := Trim(rawText), Trim(rawCategory);
    if !Truthy(text) || !Truthy(category) then None else Some(Quote(id, text, category))
  }

  /** An item of the mock server's response; only the fields the page reads. */
  datatype ServerPost = ServerPost(id: int, title: string)

  const ServerCategory: string := "General"
  const ServerBatchSize: nat := 5

  /** serverQuotes.slice(0, 5).map(q => ({ id: q.id, text: q.title, category: "General" })). */
  function FormatServerQuotes(posts: seq<ServerPost>): (batch: seq<Quote>)
    ensures |batch| == if |posts| < ServerBatchSize then |posts| else ServerBatchSize
    ensures forall i :: 0 <= i < |batch| ==>
      batch[i].id == posts[i].id && batch[i].text == posts[i].title && batch[i].category == ServerCategory
  {
    var first := if |posts| <= ServerBatchSize then posts else posts[..ServerBatchSize];
    seq(|first|, i requires 0 <= i < |first| => Quote(first[i].id, first[i].title, ServerCategory))
  }

  /** What the import's load handler gets from a file, as far as it looks at it: the array
      JSON.parse produced, or NotArray for a parsed value that is not an array and equally for
      a file on which JSON.parse throws, since the catch handles that the same way. */
  datatype ImportPayload = JsonArray(items: seq<Quote>) | NotArray

  /** The add form turns "Be yourself." under "Motivation" into a record as typed. */
  lemma AddBeYourself(now: int)
    ensures NewQuote("Be yourself.", "Motivation", now) == Some(Quote(now, "Be yourself.", "Motivation"))
  {
    TrimKeeps("Be yourself.");
    TrimKeeps("Motivation");
  }

  /** The seed plus one added "Motivation" quote, such as the one AddBeYourself builds: four
      records, two of them shown under the "Motivation" filter, in insertion order. */
  lemma SeedThenAddMotivation(added: Quote)
    requires added.category == "Motivation"
    ensures |SeedQuotes + [added]| == 4
    ensures FilteredQuotes(SeedQuotes + [added], "Motivation") == [SeedQuotes[0], added]
  {
    assert WithCategory([added], "Motivation") == [added];
    SeedUnderMotivation();
    WithCategoryDistributes(SeedQuotes, [added], "Motivation");
  }

  /** Of the seed, only the first quote is shown under "Motivation". */
  lemma SeedUnderMotivation()
    ensures WithCategory(SeedQuotes, "Motivation") == [SeedQuotes[0]]
  {
    var a, b, c := SeedQuotes[0], SeedQuotes[1], SeedQuotes[2];
    assert WithCategory([c], "Motivation") == [];
    assert WithCategory([b], "Motivation") == [];
    assert WithCategory([a], "Motivation") == [a];
    WithCategoryDistributes([a], [b], "Motivation");
    WithCategoryDistributes([a, b], [c], "Motivation");
    assert [a] + [b] == [a, b] && [a, b] + [c] == SeedQuotes;
  }
}
