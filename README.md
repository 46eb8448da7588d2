# Genre lookup for book titles and authors — a Dafny model

The repository answers two questions: what genres a book title has, and
what genres an author writes in. Two small clients talk to web services.

- The Goodreads client (`goodReadsApiParser.py`) resolves a free-text title
  or author to Goodreads identifiers, an author name and an ISBN. It posts
  a form-field list and reads the first matching element of the XML reply.
- The ISBNdb client (`IsbndbApiParser.py`) fetches the subject tags of an
  ISBN and normalises them into a genre list:
  1. Cleanup: the `Amazon.com -- ` attribution is replaced by a space, and
     tags carrying the navigational marker `Authors, A-Z` are dropped.
  2. Author aggregation: the tags of the first five of an author's ISBNs
     are concatenated, each title-cased.
  3. Splitting and deduplication: every tag is split on `--` and each part
     is stripped of spaces. The parts are then deduplicated.
  4. Exclusion: a loop is meant to remove the entries containing a digit,
     a parenthesis, or `-` (titles) or `&` (authors). It calls
     `list.remove` while iterating over the same list, so the entry right
     after a removed one is never inspected and may stay.

  Any failure, or an empty category list, is answered with `"None found"`.

The model is split into the following modules, one file each:

- `Wrappers`: `Option` and `Result`.
- `Forms`: the pairwise argument rule and the posted field lists.
- `Xml`: the parsed-response view and the service oracle.
- `Text`: the regular-expression substitution, substring test, split,
  strip and ASCII `title()`.
- `Seqs`: deduplication, filtering and subsequences.
- `GoodReads`: the first-match rules.
- `Exclusion`: the remove-while-iterating loop.
- `Isbndb`: cleanup, aggregation and the genre pipeline.

Code that builds lists by appending in loops is modelled as methods with
loops. Each such method is proved equal to a specification function, and
the promised properties are proved as lemmas about that function. Pure
selections and comprehensions are modelled as functions.

Modelling choices:

- **The pattern `Amazon.com -- `.** It is a regular expression whose `.`
  matches any character but a newline, so `Amazon-com -- ` is removed too.
  Matches are replaced left to right without overlap, as `re.sub` does.
  One pass need not leave the text free of the pattern (see
  `Text.SubAmazonCanLeaveMatch`).
- **`list(set(...))`.** Python lists a set in an order that depends on
  hashing, and the exclusion loop is sensitive to that order: which
  entries survive, and not only their order, can change with it
  (`Isbndb.GenreListDependsOnOrder`). The model therefore takes the
  order as a parameter `order` of the genre functions. It may be any
  function that lists the distinct elements of its input once each
  (`Seqs.SetOrder`). Every genre-list property is proved for every such
  order. First-occurrence order (`Seqs.Dedup`) is one of them
  (`Seqs.DedupSetOrder`).
- **The exclusion loop.** It is modelled exactly as written: the index
  advances after a removal, so the entry that slides into the freed slot
  is never inspected. The model proves the following about it:
  - it only removes entries;
  - it keeps order, so the result is a subsequence of its input;
  - it keeps every clean entry;
  - an excluded entry survives only right after a removed entry;
  - with no two excluded entries adjacent, it equals the plain filter.
- **Web services.** They are an oracle `fetch(endpoint, fields)` returning
  a parsed document or a failure. Both genre functions fetch the
  categories twice. The model assumes the service answers the same both
  times.

Behaviour of the code worth knowing:

- A tag may keep an attribution prefix after the substitution
  (`Text.SubAmazonCanLeaveMatch`).
- An excluded entry can remain in a genre list, whatever order the set is
  listed in (`Isbndb.GenreListKeepsExcludedPiece`).
- An unresolved author is not answered with an empty list. The string
  `"None found"` returned by `getAuthorId` (goodReadsApiParser.py:86-87)
  is put into the works-list request path (IsbndbApiParser.py:150-151) as
  if it were an identifier.
- `_getAuthorCategory` aggregates the first five ISBNs of the works list
  (IsbndbApiParser.py:160), although its docstrings
  (IsbndbApiParser.py:23-25 and 190-191) speak of three books. The model
  follows the code (`Isbndb.AUTHOR_ISBNS`, `Isbndb.FirstIsbns`).
- A tag equal to `None` is not skipped: the aggregation loop appends
  every returned tag, as its comment "don't break on a returned value of
  None" says (IsbndbApiParser.py:163).

## Model

| member | source | states |
|---|---|---|
| Forms.Pairwise | goodReadsApiParser.py:58-62 | `izip(a, a)` over one shared iterator: consecutive arguments paired in order |
| Forms.FormFields | goodReadsApiParser.py:37-40 | the posted list: the client's key field, then the argument pairs; the same shape is built at IsbndbApiParser.py:65-69 |
| Forms.PairwiseLength | goodReadsApiParser.py:58-62 | `izip(a, a)` yields floor(n/2) pairs; an odd trailing argument is dropped |
| Forms.PairwiseAt | IsbndbApiParser.py:83-87 | pair k is (args[2k], args[2k+1]), so argument order is preserved |
| Forms.FormFieldsShape | IsbndbApiParser.py:65-69 | the field list is the key field followed by the argument pairs in order; its length is 1 + n/2 |
| GoodReads.ConnectFields | goodReadsApiParser.py:37-40 | the appending loop builds exactly `("key", key)` followed by the pairs of the arguments |
| GoodReads.SearchFields | goodReadsApiParser.py:53-55 | a search request carries the key and exactly one pair, `("q", arg)` |
| GoodReads.TitleFields | goodReadsApiParser.py:96 | a title-detail request carries the key and exactly `("title", title)` |
| GoodReads.FirstChildIgnoresLater | goodReadsApiParser.py:71-72 | only the first matching element is consulted; later ones never change the answer |
| GoodReads.FirstChild | goodReadsApiParser.py:70-74 | `elements.next()` then `child[k].text`: "None found" when the iteration is empty, the k-th child text of the first element, a failure when it has too few children; used again at lines 83-87 and 99-103 |
| GoodReads.TitleId | goodReadsApiParser.py:70-74 | with no `best_book` the answer is "None found"; otherwise it succeeds exactly when the first one has a child and is that child's text |
| GoodReads.AuthorId | goodReadsApiParser.py:83-87 | with no `author` the answer is "None found"; otherwise it succeeds exactly when the first one has a child and is its first child's text |
| GoodReads.AuthorName | goodReadsApiParser.py:99-103 | with no `author` the answer is "None found"; otherwise it succeeds exactly when the first one has two children and is the second child's text |
| GoodReads.Isbn | goodReadsApiParser.py:110-112 | nothing (None) exactly when there is no `isbn` node, else the first node's text |
| GoodReads.GetTitleId | goodReadsApiParser.py:64-74 | `getTitleId`: the search request for the title, then the first-match rule on `best_book` |
| GoodReads.GetAuthorId | goodReadsApiParser.py:76-87 | `getAuthorId`: the search request for the author, then the first-match rule on `author` |
| GoodReads.GetAuthor | goodReadsApiParser.py:90-103 | `getAuthor`: the title-detail request, then the second child of the first `author` |
| GoodReads.GetIsbn | goodReadsApiParser.py:105-112 | `getISBN`: the title-detail request, then the first `isbn` node's text or nothing |
| GoodReads.LookupsWithoutMatch | goodReadsApiParser.py:73-74 | a reply with no match is answered "None found" without failing, for titles and authors |
| Isbndb.ConnectFields | IsbndbApiParser.py:65-69 | the guarded appending loop builds exactly `("access_key", key)` followed by the argument pairs, also for no arguments |
| Isbndb.GetIsbn | IsbndbApiParser.py:100 | the ISBN text of the first `isbn` node of the title-detail reply, "None" when there is none; no title fails |
| Isbndb.PyStr | IsbndbApiParser.py:100 | `str()` of the Goodreads answer: the text itself, or "None" when there is none |
| Isbndb.SubjectArgs | IsbndbApiParser.py:121-122 | the subjects request for one ISBN: `results=subjects`, `index1=isbn`, `value1=` the ISBN |
| Text.SubAmazon | IsbndbApiParser.py:132 | `re.sub(r"Amazon.com -- ", " ", s)`: left-to-right scan, each non-overlapping match replaced by one space |
| Text.ContainsAt | IsbndbApiParser.py:133 | the substring test holds exactly when the marker occurs at some position |
| Text.Contains | IsbndbApiParser.py:133 | the `in` test on strings, by scanning each position for the marker |
| Text.SubAmazonChanges | IsbndbApiParser.py:132 | the substitution changes a tag exactly when the pattern occurs in it |
| Text.SubAmazonShrinks | IsbndbApiParser.py:132 | the substitution never lengthens a tag and shortens every tag with a match |
| Text.SubAmazonLeading | IsbndbApiParser.py:132 | a leading `Amazon.com -- ` is replaced by one space and the rest is processed in turn |
| Text.SubAmazonWildcard | IsbndbApiParser.py:132 | the `.` is a wildcard: a leading `Amazon-com -- ` is replaced by one space too |
| Text.SubAmazonDotted | IsbndbApiParser.py:132 | a leading `Amazon`, any character but a newline, then `com -- ` is replaced by one space and the rest is processed in turn |
| Text.SubAmazonNoMatch | IsbndbApiParser.py:132 | a tag in which the pattern never occurs is copied unchanged |
| Text.SubAmazonCopies | IsbndbApiParser.py:132 | text before the first match is copied unchanged |
| Text.SubAmazonCanLeaveMatch | IsbndbApiParser.py:132 | one pass can leave a full `Amazon.com -- ` in the result, whatever follows it |
| Text.SubAmazonShort | IsbndbApiParser.py:132 | a tag shorter than the pattern is unchanged |
| Isbndb.TitleCategories | IsbndbApiParser.py:106-136 | `_getTitleCategory`: the ISBN (resolved from the title when empty), the subjects request and the cleanup of its Subject texts |
| Isbndb.KeepTag | IsbndbApiParser.py:133-134 | a tag is kept unless it contains `Authors, A-Z` |
| Isbndb.Cleaned | IsbndbApiParser.py:131-132 | each Subject text with the `re.sub` applied, position by position |
| Isbndb.CleanTags | IsbndbApiParser.py:130-136 | the substituted tags that pass `KeepTag`, in order |
| Isbndb.CleanTagsSpec | IsbndbApiParser.py:130-136 | a tag is kept exactly when its cleaned text lacks `Authors, A-Z`; every kept tag keeps its multiplicity; the result is a subsequence of the cleaned tags in document order |
| Isbndb.GetTitleCategory | IsbndbApiParser.py:117-136 | the loop over the Subject elements returns the cleaned, marker-free tags of the ISBN; an empty ISBN is resolved from the title first; every failure propagates |
| Isbndb.CleanTagsScenario | IsbndbApiParser.py:130-136 | `Amazon.com -- Fiction` and `Authors, A-Z` clean to the single tag ` Fiction` |
| Text.Title | IsbndbApiParser.py:162 | `str.title()` on ASCII: a letter is upper-cased after a non-letter and lower-cased after a letter |
| Text.TitleFrom | IsbndbApiParser.py:162 | title-casing keeps the length, keeps letters as letters and non-letters unchanged, and agrees with the text up to case |
| Text.TitleIsTitleCased | IsbndbApiParser.py:162 | after `title()` every letter is upper-case exactly when it does not follow a letter |
| Text.TitleIdempotent | IsbndbApiParser.py:162 | title-casing twice is title-casing once |
| Isbndb.Aggregate | IsbndbApiParser.py:160-163 | the nested loops as a function: the title-cased categories of each ISBN, concatenated in order, the first failure failing the whole |
| Xml.Texts | IsbndbApiParser.py:155 | `[i.text for i in categories]`: the texts of the elements, same length, in order |
| Isbndb.AuthorCategories | IsbndbApiParser.py:146-167 | `_getAuthorCategory`: the author id, the works-list request and the aggregation over its first five ISBNs |
| Isbndb.FirstIsbns | IsbndbApiParser.py:160 | `isbns[:5]`: a prefix of the ISBNs of length min(n, 5) |
| Isbndb.AuthorIgnoresLaterIsbns | IsbndbApiParser.py:160 | ISBNs after the fifth never affect the aggregation |
| Isbndb.AggregateOne | IsbndbApiParser.py:161-162 | one ISBN contributes its title categories, each title-cased, in order |
| Isbndb.AggregateAppend | IsbndbApiParser.py:160-163 | aggregating two runs of ISBNs concatenates their tags in that order; the first failure fails the whole |
| Isbndb.AggregateFailurePersists | IsbndbApiParser.py:160-163 | once the lookup of one of the first ISBNs fails, the whole aggregation fails with that failure |
| Isbndb.AggregateTitleCased | IsbndbApiParser.py:162 | every aggregated tag is title-cased |
| Isbndb.GetAuthorCategory | IsbndbApiParser.py:146-167 | the nested loops return the concatenation, in ISBN order, of the title-cased categories of the first five ISBNs of the author's works list |
| Text.Split | IsbndbApiParser.py:198 | `s.split("--")`: the texts between non-overlapping occurrences of the separator, found left to right |
| Text.SplitJoin | IsbndbApiParser.py:198 | splitting on `--` loses nothing: joining the parts with `--` gives the tag back |
| Text.SplitPartsFree | IsbndbApiParser.py:198 | no part of a split contains `--` |
| Text.SplitFirstCut | IsbndbApiParser.py:198 | `split("--")` cuts at the leftmost occurrence: with more than one part the separator occurs right after the first part and nowhere that starts earlier |
| Text.SplitWithoutSeparator | IsbndbApiParser.py:198 | a tag without `--` is its own single part |
| Text.Strip | IsbndbApiParser.py:198 | `strip(" ")`: spaces, and only spaces, removed at both ends |
| Text.StripTrims | IsbndbApiParser.py:198 | `strip(" ")` returns a slice with only spaces around it and no space at either end |
| Text.StripUnspaced | IsbndbApiParser.py:198 | a part with no space at either end is its own strip |
| Text.StripKeepsFree | IsbndbApiParser.py:198 | stripping a part cannot create a `--` |
| Seqs.Dedup | IsbndbApiParser.py:198 | first-occurrence deduplication: no duplicates and exactly the members of its input |
| Seqs.DedupSetOrder | IsbndbApiParser.py:198 | first-occurrence order is one possible listing order of `list(set(...))`, so the orders the model ranges over exist |
| Seqs.ListingSingle | IsbndbApiParser.py:198 | `list(set(...))` of one distinct element is that element alone, in every order |
| Seqs.ListingPair | IsbndbApiParser.py:198 | `list(set(...))` of two distinct elements is one of their two orders |
| Isbndb.PiecesAppend | IsbndbApiParser.py:198 | the flattening comprehension keeps tag order: the pieces of two tag lists are the pieces of the first, then of the second |
| Isbndb.Pieces | IsbndbApiParser.py:220-221 | the split-and-strip comprehension: every tag split on `--`, each part stripped, flattened in order; the same comprehension is at line 198 |
| Isbndb.PiecesSpec | IsbndbApiParser.py:198 | the pieces are exactly the stripped parts of the tags' splits, and none holds `--` |
| Isbndb.ListingPiecesSpec | IsbndbApiParser.py:220-221 | in every set order, the list before filtering has no duplicates and holds exactly every stripped part of every tag |
| Exclusion.Survivors | IsbndbApiParser.py:199-201 | what the remove-while-iterating loop leaves: a clean entry is kept; an excluded one is dropped and the entry after it is kept without inspection |
| Exclusion.HasExcluded | IsbndbApiParser.py:223 | `1 in [ch in genre for ch in excluded]`: some character of the exclusion set occurs in the entry; the same test is at line 200 |
| Exclusion.RemoveFirst | IsbndbApiParser.py:201 | `list.remove`: the first occurrence of the value is taken out, one entry shorter |
| Exclusion.Walk | IsbndbApiParser.py:199-201 | the loop as written: at index i an excluded entry is removed by value, and the index moves on to i + 1 over the shortened list either way |
| Exclusion.RemoveAt | IsbndbApiParser.py:201 | `list.remove` on a duplicate-free list cuts exactly the entry's own position and keeps the list duplicate-free |
| Exclusion.WalkSurvivors | IsbndbApiParser.py:199-201 | on a duplicate-free list, walking by index from position i keeps the first i entries and leaves the survivors of the rest |
| Exclusion.RemoveExcluded | IsbndbApiParser.py:199-201 | the remove-while-iterating loop, index advancing past each removal, computes the survivors of its input |
| Exclusion.SurvivorsOrder | IsbndbApiParser.py:222-224 | the survivors are a subsequence of the input, hold only its members and stay duplicate-free |
| Exclusion.SurvivorsKeepClean | IsbndbApiParser.py:222-224 | an entry without an excluded character is never removed |
| Exclusion.SurvivorsKeepNextOfRemoved | IsbndbApiParser.py:199-201 | the entry right after a removed one is not inspected and survives |
| Exclusion.SurvivorsExcludedFollowRemoved | IsbndbApiParser.py:199-201 | an excluded entry survives only right after a removed entry |
| Exclusion.SurvivorsWithoutNeighbours | IsbndbApiParser.py:222-224 | with no two adjacent excluded entries the loop equals the plain filter, and no excluded entry survives |
| Exclusion.SurvivorsPairExcluded | IsbndbApiParser.py:199-201 | of two excluded entries, the loop removes the first and steps over the second, which survives |
| Exclusion.SurvivorsDependOnOrder | IsbndbApiParser.py:199-201 | which entries survive depends on the listing order: "1", "a", "2" keep ["a"], while "1", "2", "a" keep ["2", "a"] |
| Exclusion.SurvivorsCounterexample | IsbndbApiParser.py:222-224 | on ["1", "2"] the title loop leaves the excluded ["2"] |
| Exclusion.LettersNotExcluded | IsbndbApiParser.py:217 | a word of letters has none of the title characters (digits, `()-`) nor the author characters (digits, `()&`) |
| Isbndb.GenreList | IsbndbApiParser.py:198-201 | split, strip, `list(set(...))` in the given set order, then the exclusion loop |
| Isbndb.Genre | IsbndbApiParser.py:193-230 | the answer of a genre lookup: "None found" on any failure or an empty category list, otherwise the genre list of the categories |
| Isbndb.TitleGenre | IsbndbApiParser.py:208-230 | `getTitleGenre`: `Genre` of the title's categories with the title exclusion set `string.digits + "()-"` |
| Isbndb.AuthorGenre | IsbndbApiParser.py:184-206 | `getAuthorGenre`: `Genre` of the author's categories with the author exclusion set `string.digits + "()&"` |
| Isbndb.GenreListEntries | IsbndbApiParser.py:198-201 | in every set order, a genre list has no duplicates; each entry is a stripped part of some tag and holds no `--` |
| Isbndb.GenreListKeepsClean | IsbndbApiParser.py:220-224 | in every set order, every stripped part without an excluded character is in the genre list |
| Isbndb.GenreListExcludedSurvivors | IsbndbApiParser.py:220-224 | in every set order, an excluded entry in a genre list directly follows, in that order's listing, an entry that was removed |
| Isbndb.GenreListKeepsExcludedPiece | IsbndbApiParser.py:220-224 | in every set order, the tags "1" and "2" give a title genre list of one entry, and that entry has an excluded character |
| Isbndb.GenreListDependsOnOrder | IsbndbApiParser.py:220-224 | the tags "1", "a", "2" have two possible set listings whose exclusion loops leave different genres, ["a"] and ["2", "a"] |
| Isbndb.PiecesOfPlain | IsbndbApiParser.py:220 | tags with no `-` and no space are their own pieces |
| Isbndb.GenreListSingle | IsbndbApiParser.py:220-224 | in every set order, one tag without `--` gives the one genre it strips to, when that genre is clean |
| Isbndb.GenreListScenario | IsbndbApiParser.py:220-224 | in every set order, the tag ` Fiction` gives the title genre list ["Fiction"] |
| Isbndb.Normalize | IsbndbApiParser.py:220-224 | for any set order, the split, strip, `list(set(...))` in that order and the exclusion loop compute the genre list of the tags for that order |
| Isbndb.GenreNoneFound | IsbndbApiParser.py:218-230 | "None found" is answered exactly when fetching the categories failed or gave none |
| Isbndb.GenreFound | IsbndbApiParser.py:219-226 | in every set order, a found list comes from a non-empty category list, is its genre list and has no duplicates |
| Isbndb.GetTitleGenre | IsbndbApiParser.py:217-230 | for any set order, `getTitleGenre` answers the genre list of the title's categories in that order, or "None found" on failure or no categories |
| Isbndb.GetAuthorGenre | IsbndbApiParser.py:193-206 | for any set order, `getAuthorGenre` answers the genre list of the author's aggregated categories in that order with the author exclusions, or "None found" on failure or no categories |
| Isbndb.TitleGenreScenario | IsbndbApiParser.py:217-230 | in every set order, a book whose subjects are `Amazon.com -- Fiction` and `Authors, A-Z` has the genres ["Fiction"]: no prefix, no marker |

## Left out

- HTTP transport, `cStringIO` buffers and the URLs (IsbndbApiParser.py:63-80,
  goodReadsApiParser.py:35-50) are not modelled. They are I/O. The replies
  are the oracle `Services.fetch`, keyed by endpoint and form fields.
- XML parsing (`ET.fromstring`, `getiterator`) is not modelled. It is a
  foreign library. A parsed document is a map from tag to its elements in
  document order. A parse error is a `ServiceFailure` from the oracle.
- Element texts are strings. An element with no text (Python `None`) is
  not modelled, so neither are the errors and the `"None"` strings it
  would produce.
- Isbndb.GetIsbn: a lookup with Python `None` as the title (the author
  path's `_getTitleCategory(isbn=i)` with an empty ISBN) is modelled as
  the failure `NoTitle`. The transport's rejection of a `None` form value
  is not modelled.
- Text.TitleFrom: `str.title()` is modelled for ASCII letters only. Its
  Unicode case mappings are left out.
- The hash order of `set` (IsbndbApiParser.py:198, 220) is not computed.
  It is the parameter `order` of Isbndb.GenreList, Isbndb.Normalize,
  Isbndb.GetTitleGenre and Isbndb.GetAuthorGenre, constrained only to list
  every distinct element once. The model does not say which order CPython
  picks, so it does not say which of the possible genre lists a given run
  returns when excluded pieces are adjacent.
- Isbndb.GetTitleGenre and Isbndb.GetAuthorGenre fetch the categories
  twice, as the source does. That both fetches agree follows from the
  oracle being a function. A service that answers differently the second
  time is not modelled.
- `getBookAuthor` (IsbndbApiParser.py:171-181) is not part of the genre
  pipeline. It is not modelled beyond `GoodReads.AuthorName`, which it
  wraps in `str(...)`.
- `demo()` in both files is not modelled. It only prints.
