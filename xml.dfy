/** What the model sees of the two web services: a parsed XML document per
    request, obtained from a fixed oracle that stands for HTTP transport and
    ElementTree parsing together. */
module Xml {
  import opened Wrappers
  import opened Forms

  /** A parsed element: its own text and the texts of its children, in
      document order (`element.text`, `element[k].text`). */
  datatype Element = Element(text: string, children: seq<string>)

  /** A parsed document: for each tag, the elements so named, in document
      order (`tree.getiterator(tag)`); a tag that is absent has none. */
  datatype Doc = Doc(elements: map<string, seq<Element>>)

  function Iter(doc: Doc, tag: string): seq<Element>
  {
    if tag in doc.elements then doc.elements[tag] else []
  }

  /** The texts of a run of elements, in order. */
  function Texts(els: seq<Element>): (r: seq<string>)
    ensures |r| == |els|
    ensures forall k :: 0 <= k < |els| ==> r[k] == els[k].text
  {
    seq(|els|, k requires 0 <= k < |els| => els[k].text)
  }

  /** The services' endpoints. The author-works list embeds the author
      identifier in its path. */
  datatype Endpoint =
    | GoodreadsSearch
    | GoodreadsTitle
    | GoodreadsAuthorList(authorId: string)
    | IsbndbBooks

  /** What can go wrong in a lookup:
      ServiceFailure: transport or XML parse error, reported by the oracle;
      MissingChild: `element[k]` on an element with too few children;
      NoTitle: a title lookup attempted with no title (Python None). */
  datatype Failure = ServiceFailure | MissingChild | NoTitle

  /** The developer keys of both services and the response oracle: the
      document a POST of the given form fields to the endpoint yields. */
  datatype Services = Services(
    isbndbKey: string,
    grKey: string,
    fetch: (Endpoint, Fields) -> Result<Doc, Failure>)
}
