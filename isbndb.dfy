/** The category aggregator: subject tags of a title fetched from ISBNdb
    (the title resolved to an ISBN through Goodreads), tags of an author
    merged over the first five of the author's ISBNs, and the normalisation
    of tags into a genre list. */
module Isbndb {
  import opened Wrappers
  import opened Forms
  import opened Xml
  import opened Text
  import opened Seqs
  import opened Exclusion
  import GoodReads

  /** A navigational tag that carries no genre information. */
  const AUTHORS_MARKER: string := "Authors, A-Z"

  /** The separator of compound tags such as "Fiction -- Mystery". */
  const SEPARATOR: string := "--"

  /** How many of an author's ISBNs are aggregated: the code slices
      `isbns[:5]` (IsbndbApiParser.py:160), although its docstrings
      (lines 23-25 and 190-191) speak of three books. */
  const AUTHOR_ISBNS: nat := 5

  /** `connectToAPI`: the list starts with the access key; the consecutive
      pairs of the arguments follow, when there are arguments. */
  method ConnectFields(key: string, args: seq<string>) returns (values: Fields)
    ensures values == FormFields("access_key", key, args)
  {
    values := [("access_key", key)];
    if |args| > 0 {
      var i := 0;
      while i + 1 < |args|
        invariant 0 <= i <= |args|
        invariant values + Pairwise(args[i..]) == FormFields("access_key", key, args)
      {
        assert args[i..][2..] == args[i + 2..];
        values := values + [(args[i], args[i + 1])];
        i := i + 2;
      }
    }
  }

  /** The ISBNdb request for the subjects of one ISBN. */
  function SubjectArgs(isbn: string): seq<string>
  {
    ["results", "subjects", "index1", "isbn", "value1", isbn]
  }

  /** `str(...)` of the Goodreads ISBN: Python's None prints as "None". */
  function PyStr(o: Option<string>): string
  {
    match o
    case None => "None"
    case Some(s) => s
  }

  /** `getISBN(title)`: the Goodreads ISBN of a title, as a string. A lookup
      with no title (Python None) cannot be posted. */
  function GetIsbn(svc: Services, title: Option<string>): (r: Result<string, Failure>)
    ensures title.None? ==> r == Failure(NoTitle)
    ensures title.Some? ==>
      match svc.fetch(GoodreadsTitle, GoodReads.TitleFields(svc.grKey, title.value))
      case Failure(e) => r == Failure(e)
      case Success(doc) =>
        r == Success(if Iter(doc, "isbn") == [] then "None" else Iter(doc, "isbn")[0].text)
  {
    match title
    case None => Failure(NoTitle)
    case Some(t) =>
      var isbn :- GoodReads.GetIsbn(svc, t);
      Success(PyStr(isbn))
  }

  // -----------------------------------------------------------------------
  // _getTitleCategory
  // -----------------------------------------------------------------------

  /** A tag is kept unless it contains the navigational marker. */
  predicate KeepTag(tag: string)
  {
    !Contains(tag, AUTHORS_MARKER)
  }

  /** Each raw tag with the attribution prefix replaced by a space. */
  function Cleaned(raws: seq<string>): (r: seq<string>)
    ensures |r| == |raws|
    ensures forall k :: 0 <= k < |raws| ==> r[k] == SubAmazon(raws[k])
  {
    seq(|raws|, k requires 0 <= k < |raws| => SubAmazon(raws[k]))
  }

  /** The tags `_getTitleCategory` returns for the raw Subject texts. */
  function CleanTags(raws: seq<string>): seq<string>
  {
    Filter(KeepTag, Cleaned(raws))
  }

  /** `_getTitleCategory(title, isbn)` as a function of the services: an
      empty ISBN (falsy in Python) is first resolved from the title. */
  function TitleCategories(svc: Services, title: Option<string>, isbn: string): Result<seq<string>, Failure>
  {
    var id :- if isbn == "" then GetIsbn(svc, title) else Success(isbn);
    var doc :- svc.fetch(IsbndbBooks, FormFields("access_key", svc.isbndbKey, SubjectArgs(id)));
    Success(CleanTags(Texts(Iter(doc, "Subject"))))
  }

  /** The cleanup drops exactly the tags whose cleaned text contains the
      marker, keeps every other one as often as it occurs, and keeps
      document order. */
  lemma CleanTagsSpec(raws: seq<string>)
    ensures forall x :: x in CleanTags(raws) <==>
      (exists k :: 0 <= k < |raws| && SubAmazon(raws[k]) == x) && !Contains(x, AUTHORS_MARKER)
    ensures forall x ::
      multiset(CleanTags(raws))[x] == if Contains(x, AUTHORS_MARKER) then 0 else multiset(Cleaned(raws))[x]
    ensures IsSubseq(CleanTags(raws), Cleaned(raws))
  {
    FilterMembers(KeepTag, Cleaned(raws));
    forall x ensures multiset(CleanTags(raws))[x] ==
      if Contains(x, AUTHORS_MARKER) then 0 else multiset(Cleaned(raws))[x]
    {
      FilterCounts(KeepTag, Cleaned(raws), x);
    }
    FilterSubseq(KeepTag, Cleaned(raws));
  }

  /** `_getTitleCategory`: fetch the Subject elements, then for each of them
      replace the prefix, skip a tag with the marker and append the rest. */
  method GetTitleCategory(svc: Services, title: Option<string>, isbn: string)
    returns (r: Result<seq<string>, Failure>)
    ensures r == TitleCategories(svc, title, isbn)
  {
    var id := isbn;
    if isbn == "" {
      var found := GetIsbn(svc, title);
      if found.Failure? {
        return Failure(found.error);
      }
      id := found.value;
    }
    var values := ConnectFields(svc.isbndbKey, SubjectArgs(id));
    var xml := svc.fetch(IsbndbBooks, values);
    if xml.Failure? {
      return Failure(xml.error);
    }
    var categories := Iter(xml.value, "Subject");
    ghost var texts := Texts(categories);
    var finalCategories: seq<string> := [];
    var i := 0;
    while i < |categories|
      invariant 0 <= i <= |categories|
      invariant finalCategories == Filter(KeepTag, Cleaned(texts[..i]))
    {
      var category := categories[i].text;
      category := SubAmazon(category);
      assert Cleaned(texts[..i + 1]) == Cleaned(texts[..i]) + [category];
      FilterAppend(KeepTag, Cleaned(texts[..i]), [category]);
      if Contains(category, AUTHORS_MARKER) {
        i := i + 1;
        continue;
      }
      finalCategories := finalCategories + [category];
      i := i + 1;
    }
    assert texts[..i] == texts;
    return Success(finalCategories);
  }

  // -----------------------------------------------------------------------
  // _getAuthorCategory
  // -----------------------------------------------------------------------

  /** `isbns[:5]`: the first five ISBNs in document order, or all of them. */
  function FirstIsbns(isbns: seq<string>): (r: seq<string>)
    ensures |r| == if |isbns| < AUTHOR_ISBNS then |isbns| else AUTHOR_ISBNS
    ensures r <= isbns
  {
    if |isbns| <= AUTHOR_ISBNS then isbns else isbns[..AUTHOR_ISBNS]
  }

  /** Every tag title-cased, in order. */
  function TitleAll(tags: seq<string>): (r: seq<string>)
    ensures |r| == |tags|
    ensures forall k :: 0 <= k < |tags| ==> r[k] == Title(tags[k])
  {
    seq(|tags|, k requires 0 <= k < |tags| => Title(tags[k]))
  }

  lemma TitleAllSnoc(tags: seq<string>, j: nat)
    requires j < |tags|
    ensures TitleAll(tags[..j + 1]) == TitleAll(tags[..j]) + [Title(tags[j])]
  {
    var l, r := TitleAll(tags[..j + 1]), TitleAll(tags[..j]) + [Title(tags[j])];
    assert |l| == |r|;
    forall k | 0 <= k < |l| ensures l[k] == r[k] {
      if k < j {
        assert tags[..j + 1][k] == tags[..j][k];
      }
    }
  }

  /** The title-cased tags of the ISBNs, one after another; the first
      lookup that fails fails the whole. */
  function Aggregate(svc: Services, isbns: seq<string>): Result<seq<string>, Failure>
    decreases |isbns|
  {
    if |isbns| == 0 then Success([])
    else
      var before :- Aggregate(svc, isbns[..|isbns| - 1]);
      var tags :- TitleCategories(svc, None, isbns[|isbns| - 1]);
      Success(before + TitleAll(tags))
  }

  /** `_getAuthorCategory(author)` as a function of the services. The
      Goodreads author identifier goes into the works-list path as it is,
      "None found" included. */
  function AuthorCategories(svc: Services, author: string): Result<seq<string>, Failure>
  {
    var id :- GoodReads.GetAuthorId(svc, author);
    var doc :- svc.fetch(GoodreadsAuthorList(id), FormFields("key", svc.grKey, []));
    Aggregate(svc, FirstIsbns(Texts(Iter(doc, "isbn"))))
  }

  /** Aggregating two runs of ISBNs one after the other concatenates their
      tags in that order; a failure in the first run is the failure of the
      whole. */
  lemma {:induction false} AggregateAppend(svc: Services, a: seq<string>, b: seq<string>)
    ensures Aggregate(svc, a + b) ==
      match Aggregate(svc, a)
      case Failure(e) => Failure(e)
      case Success(x) =>
        match Aggregate(svc, b)
        case Failure(e) => Failure(e)
        case Success(y) => Success(x + y)
    decreases |b|
  {
    if |b| == 0 {
      assert a + b == a;
      match Aggregate(svc, a)
      case Failure(e) =>
      case Success(x) => assert x + [] == x;
    } else {
      var b' := b[..|b| - 1];
      assert (a + b)[..|a + b| - 1] == a + b';
      assert (a + b)[|a + b| - 1] == b[|b| - 1];
      AggregateAppend(svc, a, b');
      match Aggregate(svc, a)
      case Failure(e) =>
      case Success(x) =>
        match Aggregate(svc, b')
        case Failure(e) =>
        case Success(y) =>
          match TitleCategories(svc, None, b[|b| - 1])
          case Failure(e) =>
          case Success(tags) =>
            assert x + y + TitleAll(tags) == x + (y + TitleAll(tags));
    }
  }

  /** One ISBN contributes its title categories, each title-cased. */
  lemma AggregateOne(svc: Services, isbn: string)
    ensures Aggregate(svc, [isbn]) ==
      match TitleCategories(svc, None, isbn)
      case Failure(e) => Failure(e)
      case Success(tags) => Success(TitleAll(tags))
  {
    assert [isbn][..0] == [] && [isbn][0] == isbn;
    assert Aggregate(svc, []) == Success([]);
    match TitleCategories(svc, None, isbn)
    case Failure(e) =>
    case Success(tags) => assert [] + TitleAll(tags) == TitleAll(tags);
  }

  /** Adding one more ISBN adds its title-cased categories at the end. */
  lemma AggregateSnoc(svc: Services, s: seq<string>, i: nat)
    requires i < |s|
    ensures Aggregate(svc, s[..i + 1]) ==
      match Aggregate(svc, s[..i])
      case Failure(e) => Failure(e)
      case Success(x) =>
        match TitleCategories(svc, None, s[i])
        case Failure(e) => Failure(e)
        case Success(tags) => Success(x + TitleAll(tags))
  {
    assert s[..i + 1][..i] == s[..i];
    assert s[..i + 1][i] == s[i];
  }

  /** Once a prefix of the ISBNs fails, the whole aggregation fails with the
      same error. */
  lemma AggregateFailurePersists(svc: Services, s: seq<string>, i: nat)
    requires i <= |s|
    requires Aggregate(svc, s[..i]).Failure?
    ensures Aggregate(svc, s) == Aggregate(svc, s[..i])
  {
    AggregateAppend(svc, s[..i], s[i..]);
    assert s[..i] + s[i..] == s;
  }

  /** Every aggregated tag is in title case. */
  lemma {:induction false} AggregateTitleCased(svc: Services, isbns: seq<string>)
    requires Aggregate(svc, isbns).Success?
    ensures forall x :: x in Aggregate(svc, isbns).value ==> IsTitleCased(x)
    decreases |isbns|
  {
    if |isbns| > 0 {
      AggregateTitleCased(svc, isbns[..|isbns| - 1]);
      var tags := TitleCategories(svc, None, isbns[|isbns| - 1]).value;
      forall k | 0 <= k < |tags| ensures IsTitleCased(TitleAll(tags)[k]) {
        TitleIsTitleCased(tags[k]);
      }
    }
  }

  /** ISBNs after the fifth never take part. */
  lemma AuthorIgnoresLaterIsbns(svc: Services, isbns: seq<string>, more: seq<string>)
    requires |isbns| >= AUTHOR_ISBNS
    ensures Aggregate(svc, FirstIsbns(isbns + more)) == Aggregate(svc, FirstIsbns(isbns))
  {
    assert (isbns + more)[..AUTHOR_ISBNS] == isbns[..AUTHOR_ISBNS];
    assert FirstIsbns(isbns + more) == FirstIsbns(isbns);
  }

  /** `_getAuthorCategory`: resolve the author, fetch the works list, and for
      each of the first five ISBNs append its title-cased categories. */
  method GetAuthorCategory(svc: Services, author: string) returns (r: Result<seq<string>, Failure>)
    ensures r == AuthorCategories(svc, author)
  {
    var authorId := GoodReads.GetAuthorId(svc, author);
    if authorId.Failure? {
      return Failure(authorId.error);
    }
    var values := GoodReads.ConnectFields(svc.grKey, []);
    var xml := svc.fetch(GoodreadsAuthorList(authorId.value), values);
    if xml.Failure? {
      return Failure(xml.error);
    }
    var isbns := Texts(Iter(xml.value, "isbn"));
    var first := FirstIsbns(isbns);
    var categorySet: seq<string> := [];
    var i := 0;
    while i < |first|
      invariant 0 <= i <= |first|
      invariant Aggregate(svc, first[..i]) == Success(categorySet)
    {
      var returned := GetTitleCategory(svc, None, first[i]);
      AggregateSnoc(svc, first, i);
      if returned.Failure? {
        AggregateFailurePersists(svc, first, i + 1);
        return Failure(returned.error);
      }
      var tags := returned.value;
      ghost var before := categorySet;
      var j := 0;
      while j < |tags|
        invariant 0 <= j <= |tags|
        invariant categorySet == before + TitleAll(tags[..j])
      {
        TitleAllSnoc(tags, j);
        categorySet := categorySet + [Title(tags[j])];
        j := j + 1;
      }
      assert tags[..j] == tags;
      i := i + 1;
    }
    assert first[..i] == first;
    return Success(categorySet);
  }

  // -----------------------------------------------------------------------
  // getTitleGenre / getAuthorGenre
  // -----------------------------------------------------------------------

  /** Every part of a split tag, space-stripped. */
  function StripAll(parts: seq<string>): (r: seq<string>)
    ensures |r| == |parts|
    ensures forall k :: 0 <= k < |parts| ==> r[k] == Strip(parts[k])
  {
    seq(|parts|, k requires 0 <= k < |parts| => Strip(parts[k]))
  }

  /** `[item.strip(" ") for sublist in [i.split("--") for i in tags] for item
      in sublist]`: the parts of every tag, in order. */
  function Pieces(tags: seq<string>): seq<string>
    decreases |tags|
  {
    if |tags| == 0 then [] else StripAll(Split(tags[0], SEPARATOR)) + Pieces(tags[1..])
  }

  /** A piece is the space-stripped part number k of tag number j. */
  predicate PieceOf(tags: seq<string>, x: string, j: int, k: int)
  {
    0 <= j < |tags| && 0 <= k < |Split(tags[j], SEPARATOR)| && x == Strip(Split(tags[j], SEPARATOR)[k])
  }

  /** The pieces are exactly the stripped parts of the tags, and none of
      them holds the separator: no compound tag survives whole. */
  lemma {:induction false} PiecesSpec(tags: seq<string>)
    ensures forall x :: x in Pieces(tags) <==> exists j, k :: PieceOf(tags, x, j, k)
    ensures forall x :: x in Pieces(tags) ==> !Contains(x, SEPARATOR)
    decreases |tags|
  {
    if |tags| > 0 {
      PiecesSpec(tags[1..]);
      var head := Split(tags[0], SEPARATOR);
      SplitPartsFree(tags[0], SEPARATOR);
      forall x | x in Pieces(tags) ensures (exists j, k :: PieceOf(tags, x, j, k)) && !Contains(x, SEPARATOR) {
        if x in StripAll(head) {
          var k :| 0 <= k < |head| && StripAll(head)[k] == x;
          assert PieceOf(tags, x, 0, k);
          StripKeepsFree(head[k], SEPARATOR);
        } else {
          assert x in Pieces(tags[1..]);
          var j, k :| PieceOf(tags[1..], x, j, k);
          assert PieceOf(tags, x, j + 1, k);
        }
      }
      forall x | exists j, k :: PieceOf(tags, x, j, k) ensures x in Pieces(tags) {
        var j, k :| PieceOf(tags, x, j, k);
        if j == 0 {
          assert StripAll(head)[k] == x;
        } else {
          assert PieceOf(tags[1..], x, j - 1, k);
        }
      }
    }
  }

  /** An iteration order of `set` over pieces (see `Seqs.SetOrder`). */
  type Order = seq<string> -> seq<string>

  /** `list(set(pieces))`, listed in the set's iteration order `order`,
      followed by the exclusion loop. */
  function GenreList(tags: seq<string>, order: Order, excluded: string): seq<string>
  {
    Survivors(order(Pieces(tags)), excluded)
  }

  /** What a genre lookup returns: a list, or the string "None found". */
  datatype Genres = Found(genres: seq<string>) | NoneFound

  /** The catch-all boundary of the lookups: any failure, and an empty
      category list, become "None found". */
  function Genre(categories: Result<seq<string>, Failure>, order: Order, excluded: string): Genres
  {
    match categories
    case Failure(_) => NoneFound
    case Success(tags) => if tags == [] then NoneFound else Found(GenreList(tags, order, excluded))
  }

  function TitleGenre(svc: Services, order: Order, title: string): Genres
  {
    Genre(TitleCategories(svc, Some(title), ""), order, TITLE_EXCLUDED)
  }

  function AuthorGenre(svc: Services, order: Order, author: string): Genres
  {
    Genre(AuthorCategories(svc, author), order, AUTHOR_EXCLUDED)
  }

  /** "None found" is the answer exactly when the categories could not be
      obtained or there are none. */
  lemma GenreNoneFound(categories: Result<seq<string>, Failure>, order: Order, excluded: string)
    ensures Genre(categories, order, excluded) == NoneFound <==>
      categories.Failure? || categories.value == []
  {
  }

  /** Before the filter, the listing has no duplicates and holds exactly
      the stripped parts of the tags, whatever the set's order. */
  lemma ListingPiecesSpec(tags: seq<string>, order: Order)
    requires SetOrder(order)
    ensures NoDup(order(Pieces(tags)))
    ensures forall x :: x in order(Pieces(tags)) <==> exists j, k :: PieceOf(tags, x, j, k)
  {
    PiecesSpec(tags);
    assert IsListing(Pieces(tags), order(Pieces(tags)));
  }

  /** The genre list has no duplicates; each entry is a stripped part of
      some tag, and none holds the separator. */
  lemma GenreListEntries(tags: seq<string>, order: Order, excluded: string)
    requires SetOrder(order)
    ensures NoDup(GenreList(tags, order, excluded))
    ensures forall x :: x in GenreList(tags, order, excluded) ==>
      (exists j, k :: PieceOf(tags, x, j, k)) && !Contains(x, SEPARATOR)
  {
    ListingPiecesSpec(tags, order);
    PiecesSpec(tags);
    SurvivorsOrder(order(Pieces(tags)), excluded);
  }

  /** Every part free of excluded characters is in the genre list, whatever
      the set's order. */
  lemma GenreListKeepsClean(tags: seq<string>, order: Order, excluded: string)
    requires SetOrder(order)
    ensures forall j, k, x :: PieceOf(tags, x, j, k) && !HasExcluded(x, excluded) ==>
      x in GenreList(tags, order, excluded)
  {
    var d := order(Pieces(tags));
    ListingPiecesSpec(tags, order);
    SurvivorsKeepClean(d, excluded);
    forall j, k, x | PieceOf(tags, x, j, k) && !HasExcluded(x, excluded)
      ensures x in GenreList(tags, order, excluded)
    {
      assert x in d;
      var i :| 0 <= i < |d| && d[i] == x;
    }
  }

  /** Entry i of the listing d is x, and the entry before it is not among
      the survivors g. */
  predicate FollowsRemoved(d: seq<string>, g: seq<string>, x: string, i: int)
  {
    0 < i < |d| && d[i] == x && d[i - 1] !in g
  }

  /** Every excluded entry of g directly follows, in d, an entry missing
      from g. */
  ghost predicate ExcludedFollowRemoved(d: seq<string>, g: seq<string>, excluded: string)
  {
    forall x :: x in g && HasExcluded(x, excluded) ==> exists i :: FollowsRemoved(d, g, x, i)
  }

  /** An entry with an excluded character is in the genre list only as the
      successor, in the set's listing, of an entry that was removed. */
  lemma GenreListExcludedSurvivors(tags: seq<string>, order: Order, excluded: string)
    requires SetOrder(order)
    ensures ExcludedFollowRemoved(order(Pieces(tags)), GenreList(tags, order, excluded), excluded)
  {
    var d := order(Pieces(tags));
    assert IsListing(Pieces(tags), d);
    ListingFollowRemoved(d, excluded);
    assert GenreList(tags, order, excluded) == Survivors(d, excluded);
  }

  /** On any duplicate-free listing, excluded survivors follow removed
      entries. */
  lemma ListingFollowRemoved(d: seq<string>, excluded: string)
    requires NoDup(d)
    ensures ExcludedFollowRemoved(d, Survivors(d, excluded), excluded)
  {
    var g := Survivors(d, excluded);
    SurvivorsExcludedFollowRemoved(d, excluded);
    forall x | x in g && HasExcluded(x, excluded) ensures exists i :: FollowsRemoved(d, g, x, i) {
      var i :| 0 < i < |d| && d[i] == x && d[i - 1] !in g;
      assert FollowsRemoved(d, g, x, i);
    }
  }

  /** The pieces of two tag lists are the pieces of the first, then of the
      second. */
  lemma {:induction false} PiecesAppend(a: seq<string>, b: seq<string>)
    ensures Pieces(a + b) == Pieces(a) + Pieces(b)
    decreases |a|
  {
    if |a| == 0 {
      assert a + b == b;
    } else {
      assert (a + b)[1..] == a[1..] + b;
      PiecesAppend(a[1..], b);
    }
  }

  /** A tag with no `-` and no space, which `split` and `strip` leave as it
      is. */
  predicate Plain(tag: string)
  {
    |tag| > 0 && '-' !in tag && ' ' !in tag
  }

  /** Plain tags are their own pieces. */
  lemma {:induction false} PiecesOfPlain(tags: seq<string>)
    requires forall i :: 0 <= i < |tags| ==> Plain(tags[i])
    ensures Pieces(tags) == tags
    decreases |tags|
  {
    if |tags| > 0 {
      PlainPiece(tags[0]);
      PiecesOfPlain(tags[1..]);
      PiecesCons(tags);
      assert [tags[0]] + tags[1..] == tags;
    }
  }

  /** The pieces of a tag list are those of its first tag, then the rest. */
  lemma PiecesCons(tags: seq<string>)
    requires |tags| > 0
    ensures Pieces(tags) == Pieces([tags[0]]) + Pieces(tags[1..])
  {
    assert tags == [tags[0]] + tags[1..];
    PiecesAppend([tags[0]], tags[1..]);
  }

  /** A plain tag is its own single piece. */
  lemma PlainPiece(t: string)
    requires Plain(t)
    ensures Pieces([t]) == [t]
  {
    assert SEPARATOR[0] == '-';
    NoLeadNoContains(t, SEPARATOR);
    PiecesSingle(t);
    assert t[0] in t && t[|t| - 1] in t;
    StripUnspaced(t);
  }

  /** An excluded piece can reach a genre list: with the tags "1" and "2",
      whichever order the set lists them in, the second is not inspected
      and survives, although it has an excluded character. */
  lemma GenreListKeepsExcludedPiece(tags: seq<string>, order: Order)
    requires tags == ["1", "2"] && SetOrder(order)
    ensures |GenreList(tags, order, TITLE_EXCLUDED)| == 1
    ensures HasExcluded(GenreList(tags, order, TITLE_EXCLUDED)[0], TITLE_EXCLUDED)
  {
    forall i | 0 <= i < |tags| ensures Plain(tags[i]) {
    }
    PiecesOfPlain(tags);
    var d := order(Pieces(tags));
    assert IsListing(["1", "2"], d);
    ListingPair("1", "2", d);
    DigitsExcluded();
    SurvivorsPairExcluded("1", "2", TITLE_EXCLUDED);
    SurvivorsPairExcluded("2", "1", TITLE_EXCLUDED);
  }

  /** The order of the set decides which genres are found: the tags "1",
      "a" and "2" can be listed as "1", "a", "2", which keeps only "a", or
      as "1", "2", "a", which also keeps the excluded "2". */
  lemma GenreListDependsOnOrder(tags: seq<string>)
    requires tags == ["1", "a", "2"]
    ensures IsListing(Pieces(tags), ["1", "a", "2"]) && IsListing(Pieces(tags), ["1", "2", "a"])
    ensures Survivors(["1", "a", "2"], TITLE_EXCLUDED) == ["a"]
    ensures Survivors(["1", "2", "a"], TITLE_EXCLUDED) == ["2", "a"]
  {
    ThreePlainTags(tags);
    ThreeTagListings(Pieces(tags));
    SurvivorsDependOnOrder();
  }

  /** The three plain tags are their own pieces. The tags come in as a
      parameter equal to the literal, which keeps the proof cheap. */
  lemma ThreePlainTags(tags: seq<string>)
    requires tags == ["1", "a", "2"]
    ensures Pieces(tags) == ["1", "a", "2"]
  {
    forall i | 0 <= i < |tags| ensures Plain(tags[i]) {
    }
    PiecesOfPlain(tags);
  }

  /** Two of the orders in which a set of "1", "a" and "2" can be listed.
      The pieces come in as a parameter equal to the literal, which keeps
      the proof apart from the one that computes them. */
  lemma ThreeTagListings(p: seq<string>)
    requires p == ["1", "a", "2"]
    ensures IsListing(p, ["1", "a", "2"]) && IsListing(p, ["1", "2", "a"])
  {
  }

  /** The prefix of "Amazon.com -- Fiction" becomes one space;
      "Authors, A-Z" is too short for the pattern. */
  lemma CleanedScenario(raws: seq<string>)
    requires raws == [ATTRIBUTION + "Fiction", "Authors, A-Z"]
    ensures Cleaned(raws) == [" Fiction", "Authors, A-Z"]
  {
    PrefixScenario();
    SubAmazonShort("Authors, A-Z");
    var c := Cleaned(raws);
    assert c[0] == " Fiction" && c[1] == "Authors, A-Z";
  }

  lemma PrefixScenario()
    ensures SubAmazon(ATTRIBUTION + "Fiction") == " Fiction"
  {
    SubAmazonLeading("Fiction");
    SubAmazonShort("Fiction");
  }

  /** The marker tag is dropped and " Fiction" is kept. */
  lemma KeepTagScenario()
    ensures !KeepTag("Authors, A-Z") && KeepTag(" Fiction")
  {
    assert "Authors, A-Z"[..|AUTHORS_MARKER|] == AUTHORS_MARKER;
    NoLeadNoContains(" Fiction", AUTHORS_MARKER);
  }

  /** The cleanup of the tags "Amazon.com -- Fiction" and "Authors, A-Z". */
  lemma CleanTagsScenario(raws: seq<string>)
    requires raws == [ATTRIBUTION + "Fiction", "Authors, A-Z"]
    ensures CleanTags(raws) == [" Fiction"]
  {
    CleanedScenario(raws);
    KeepTagScenario();
    var c := Cleaned(raws);
    assert c == [c[0]] + [c[1]];
    FilterAppend(KeepTag, [c[0]], [c[1]]);
    assert [c[0]][1..] == [] && [c[1]][1..] == [];
  }

  /** One tag without the separator is the one piece it strips to. */
  lemma PiecesSingle(tag: string)
    requires !Contains(tag, SEPARATOR)
    ensures Pieces([tag]) == [Strip(tag)]
  {
    SplitWithoutSeparator(tag, SEPARATOR);
    assert [tag][1..] == [];
    assert StripAll([tag])[0] == Strip(tag);
    assert StripAll([tag]) + [] == [Strip(tag)];
  }

  /** One clean genre survives the exclusion on its own. */
  lemma SurvivorsSingle(genre: string, excluded: string)
    requires !HasExcluded(genre, excluded)
    ensures Survivors([genre], excluded) == [genre]
  {
    assert [genre][1..] == [];
  }

  /** One tag without the separator gives the one genre it strips to, when
      that genre passes the exclusion test. */
  lemma GenreListSingle(tag: string, genre: string, order: Order, excluded: string)
    requires SetOrder(order)
    requires !Contains(tag, SEPARATOR) && Strip(tag) == genre && !HasExcluded(genre, excluded)
    ensures GenreList([tag], order, excluded) == [genre]
  {
    PiecesSingle(tag);
    assert IsListing([genre], order([genre]));
    ListingSingle(genre, order([genre]));
    SurvivorsSingle(genre, excluded);
  }

  /** " Fiction" is one part that strips to "Fiction", which has no
      excluded character. */
  lemma FictionScenario()
    ensures !Contains(" Fiction", SEPARATOR) && Strip(" Fiction") == "Fiction"
    ensures !HasExcluded("Fiction", TITLE_EXCLUDED)
  {
    NoLeadNoContains(" Fiction", SEPARATOR);
    LettersNotExcluded("Fiction");
  }

  /** The genre list of the single tag " Fiction". */
  lemma GenreListScenario(tags: seq<string>, order: Order)
    requires tags == [" Fiction"] && SetOrder(order)
    ensures GenreList(tags, order, TITLE_EXCLUDED) == ["Fiction"]
  {
    FictionScenario();
    GenreListSingle(tags[0], "Fiction", order, TITLE_EXCLUDED);
    assert tags == [tags[0]];
  }

  /** A book whose Subject tags are "Amazon.com -- Fiction" and
      "Authors, A-Z" has the genre list ["Fiction"]: the attribution prefix
      and the navigational marker are gone. */
  lemma TitleGenreScenario(svc: Services, order: Order, title: string, isbn: string, gdoc: Doc, sdoc: Doc)
    requires SetOrder(order)
    requires svc.fetch(GoodreadsTitle, GoodReads.TitleFields(svc.grKey, title)) == Success(gdoc)
    requires Iter(gdoc, "isbn") != [] && Iter(gdoc, "isbn")[0].text == isbn
    requires svc.fetch(IsbndbBooks, FormFields("access_key", svc.isbndbKey, SubjectArgs(isbn))) == Success(sdoc)
    requires Texts(Iter(sdoc, "Subject")) == [ATTRIBUTION + "Fiction", "Authors, A-Z"]
    ensures TitleCategories(svc, Some(title), "") == Success([" Fiction"])
    ensures TitleGenre(svc, order, title) == Found(["Fiction"])
  {
    CleanTagsScenario(Texts(Iter(sdoc, "Subject")));
    GenreListScenario([" Fiction"], order);
    assert GetIsbn(svc, Some(title)) == Success(isbn);
  }

  /** A list that is found comes from a non-empty category list, and it is
      that list's genre list. */
  lemma GenreFound(categories: Result<seq<string>, Failure>, order: Order, excluded: string)
    requires SetOrder(order) && Genre(categories, order, excluded).Found?
    ensures categories.Success? && categories.value != []
    ensures Genre(categories, order, excluded).genres == GenreList(categories.value, order, excluded)
    ensures NoDup(Genre(categories, order, excluded).genres)
  {
    GenreListEntries(categories.value, order, excluded);
  }

  /** The comprehension of split, stripped parts, `list(set(...))` in the
      set's order, and the exclusion loop. */
  method Normalize(tags: seq<string>, order: Order, excluded: string) returns (genres: seq<string>)
    requires SetOrder(order)
    ensures genres == GenreList(tags, order, excluded)
  {
    var listing := order(Pieces(tags));
    assert IsListing(Pieces(tags), listing);
    genres := RemoveExcluded(listing, excluded);
  }

  /** `getTitleGenre`: the categories are fetched, and fetched again when
      there are any; "None found" on failure or when there are none. */
  method GetTitleGenre(svc: Services, order: Order, title: string) returns (answer: Genres)
    requires SetOrder(order)
    ensures answer == TitleGenre(svc, order, title)
  {
    var categories := GetTitleCategory(svc, Some(title), "");
    if categories.Failure? || categories.value == [] {
      return NoneFound;
    }
    var again := GetTitleCategory(svc, Some(title), "");
    var genres := Normalize(again.value, order, TITLE_EXCLUDED);
    return Found(genres);
  }

  /** `getAuthorGenre`: the same over the author's aggregated categories,
      with the author's excluded characters. */
  method GetAuthorGenre(svc: Services, order: Order, author: string) returns (answer: Genres)
    requires SetOrder(order)
    ensures answer == AuthorGenre(svc, order, author)
  {
    var categories := GetAuthorCategory(svc, author);
    if categories.Failure? || categories.value == [] {
      return NoneFound;
    }
    var again := GetAuthorCategory(svc, author);
    var genres := Normalize(again.value, order, AUTHOR_EXCLUDED);
    return Found(genres);
  }
}
