/** The Goodreads client: the form fields it posts and the first-match rules
    by which it reads identifiers, author names and ISBNs out of a parsed
    response. The ranking of the service is trusted: the first matching
    element in document order is the answer. */
module GoodReads {
  import opened Wrappers
  import opened Forms
  import opened Xml

  /** What a lookup answers when the response has no matching element. */
  const NOT_FOUND: string := "None found"

  /** `connectToGoodreads`: the list starts with the developer key and each
      consecutive pair of arguments is appended in turn. */
  method ConnectFields(key: string, args: seq<string>) returns (values: Fields)
    ensures values == FormFields("key", key, args)
  {
    values := [("key", key)];
    var i := 0;
    while i + 1 < |args|
      invariant 0 <= i <= |args|
      invariant values + Pairwise(args[i..]) == FormFields("key", key, args)
    {
      assert args[i..][2..] == args[i + 2..];
      values := values + [(args[i], args[i + 1])];
      i := i + 2;
    }
  }

  /** `_searchBaseXML(arg)`: a search carries exactly one argument pair,
      the query `q`. */
  function SearchFields(key: string, arg: string): (fields: Fields)
    ensures fields == [("key", key), ("q", arg)]
  {
    assert ["q", arg][2..] == [] && Pairwise([]) == [];
    FormFields("key", key, ["q", arg])
  }

  /** A title-detail request carries exactly the pair `title`. */
  function TitleFields(key: string, title: string): (fields: Fields)
    ensures fields == [("key", key), ("title", title)]
  {
    assert ["title", title][2..] == [] && Pairwise([]) == [];
    FormFields("key", key, ["title", title])
  }

  /** `child = elements.next(); child[k].text`: the k-th child text of the
      first element. No element at all ends the iteration, which is caught
      and answered with NOT_FOUND; an element with too few children raises,
      which is not caught here. */
  function FirstChild(els: seq<Element>, k: nat): Result<string, Failure>
  {
    if els == [] then Success(NOT_FOUND)
    else if k < |els[0].children| then Success(els[0].children[k])
    else Failure(MissingChild)
  }

  /** Only the first matching element is ever consulted. */
  lemma FirstChildIgnoresLater(e: Element, later: seq<Element>, k: nat)
    ensures FirstChild([e] + later, k) == FirstChild([e], k)
  {
  }

  /** `getTitleId`: the first child text of the first `best_book`. */
  function TitleId(bestBooks: seq<Element>): (r: Result<string, Failure>)
    ensures bestBooks == [] ==> r == Success(NOT_FOUND)
    ensures bestBooks != [] ==> (r.Success? <==> |bestBooks[0].children| >= 1)
    ensures bestBooks != [] && r.Success? ==> r.value == bestBooks[0].children[0]
  {
    FirstChild(bestBooks, 0)
  }

  /** `getAuthorId`: the first child text of the first `author`. */
  function AuthorId(authors: seq<Element>): (r: Result<string, Failure>)
    ensures authors == [] ==> r == Success(NOT_FOUND)
    ensures authors != [] ==> (r.Success? <==> |authors[0].children| >= 1)
    ensures authors != [] && r.Success? ==> r.value == authors[0].children[0]
  {
    FirstChild(authors, 0)
  }

  /** `getAuthor`: the second child text (index 1) of the first `author`. */
  function AuthorName(authors: seq<Element>): (r: Result<string, Failure>)
    ensures authors == [] ==> r == Success(NOT_FOUND)
    ensures authors != [] ==> (r.Success? <==> |authors[0].children| >= 2)
    ensures authors != [] && r.Success? ==> r.value == authors[0].children[1]
  {
    FirstChild(authors, 1)
  }

  /** `getISBN`: the text of the first `isbn` node; with no node the loop
      body never runs and the method returns nothing (Python None). */
  function Isbn(nodes: seq<Element>): (r: Option<string>)
    ensures r.None? <==> nodes == []
    ensures nodes != [] ==> r == Some(nodes[0].text)
  {
    if nodes == [] then None else Some(nodes[0].text)
  }

  /** `getTitleId(title)` against the service; a failed request fails. */
  function GetTitleId(svc: Services, title: string): Result<string, Failure>
  {
    var doc :- svc.fetch(GoodreadsSearch, SearchFields(svc.grKey, title));
    TitleId(Iter(doc, "best_book"))
  }

  /** `getAuthorId(author)` against the service. */
  function GetAuthorId(svc: Services, author: string): Result<string, Failure>
  {
    var doc :- svc.fetch(GoodreadsSearch, SearchFields(svc.grKey, author));
    AuthorId(Iter(doc, "author"))
  }

  /** `getAuthor(title)` against the service. */
  function GetAuthor(svc: Services, title: string): Result<string, Failure>
  {
    var doc :- svc.fetch(GoodreadsTitle, TitleFields(svc.grKey, title));
    AuthorName(Iter(doc, "author"))
  }

  /** `getISBN(title)` against the service. */
  function GetIsbn(svc: Services, title: string): Result<Option<string>, Failure>
  {
    var doc :- svc.fetch(GoodreadsTitle, TitleFields(svc.grKey, title));
    Success(Isbn(Iter(doc, "isbn")))
  }

  /** A lookup whose response has no matching element answers NOT_FOUND and
      does not fail. */
  lemma LookupsWithoutMatch(svc: Services, q: string)
    requires svc.fetch(GoodreadsSearch, SearchFields(svc.grKey, q)).Success?
    ensures var doc := svc.fetch(GoodreadsSearch, SearchFields(svc.grKey, q)).value;
      && (Iter(doc, "best_book") == [] ==> GetTitleId(svc, q) == Success(NOT_FOUND))
      && (Iter(doc, "author") == [] ==> GetAuthorId(svc, q) == Success(NOT_FOUND))
  {
  }
}
