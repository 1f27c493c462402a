/**
 * The search pipeline around one Open Library query: the query parameter, the
 * projection of each returned document onto a Book, the stable sort by the
 * requested key, the handling of the parsed response, and cover image URLs.
 */
module BookService {
  import opened Wrappers
  import opened BookTypes
  import opened Sequences
  import Text
  import UriEncoding

  const BaseUrl := "https://openlibrary.org"
  const SearchPath := "/search.json?"
  const CoverUrlPrefix := "https://covers.openlibrary.org/b/id/"

  /** How many subjects a transformed book keeps. */
  const MaxSubjects := 5

  // ---------------------------------------------------------------- query

  /** The field `getSearchParam` searches: its switch over the search type. */
  function ParamName(searchType: string): (name: string)
    ensures '=' !in name && '&' !in name
  {
    if searchType == "author" then "author"
    else if searchType == "subject" then "subject"
    else if searchType == "isbn" then "isbn"
    else "title"
  }

  /**
   * `getSearchParam`: the `name=value` fragment for a search type and a query.
   * It starts with the field name, its only `=` comes right after the name, and
   * it holds no `&`, whatever the query.
   */
  function SearchParam(searchType: string, query: string): (param: string)
    ensures |param| > |ParamName(searchType)| && param[..|ParamName(searchType)|] == ParamName(searchType)
    ensures forall i :: 0 <= i < |param| ==> (param[i] == '=' <==> i == |ParamName(searchType)|)
    ensures '&' !in param
  {
    var name := ParamName(searchType);
    var value := UriEncoding.EncodeUriComponent(query);
    var param := name + "=" + value;
    assert forall i :: 0 <= i < |name| ==> param[i] == name[i];
    assert forall i :: |name| < i < |param| ==> param[i] == value[i - |name| - 1];
    param
  }

  /**
   * The request URL `searchBooks` fetches: the search endpoint, then as many
   * characters as the search parameter has, then an `&` (the only one in the
   * query string), then `limit=<n>`. SearchUrlFields shows the middle is the
   * search parameter itself.
   */
  function SearchUrl(query: string, filters: SearchFilters): (url: string)
    ensures |BaseUrl + SearchPath| <= |url| && url[..|BaseUrl + SearchPath|] == BaseUrl + SearchPath
    ensures forall i :: |BaseUrl + SearchPath| <= i < |url| ==>
      (url[i] == '&' <==> i == |BaseUrl + SearchPath| + |SearchParam(filters.searchType, query)|)
    ensures |BaseUrl + SearchPath| + |SearchParam(filters.searchType, query)| < |url|
    ensures url[|BaseUrl + SearchPath| + |SearchParam(filters.searchType, query)| + 1..]
      == "limit=" + Text.IntToString(filters.limit)
  {
    var prefix := BaseUrl + SearchPath;
    var param := SearchParam(filters.searchType, query);
    var limit := "limit=" + Text.IntToString(filters.limit);
    var url := prefix + param + "&" + limit;
    assert forall i :: |prefix| <= i < |prefix| + |param| ==> url[i] == param[i - |prefix|];
    assert forall i :: |prefix| + |param| < i < |url| ==> url[i] == limit[i - |prefix| - |param| - 1];
    assert '&' !in limit by {
      assert forall i :: 6 <= i < |limit| ==> limit[i] == Text.IntToString(filters.limit)[i - 6];
    }
    url
  }

  /**
   * The fragment names the field `author`, `subject` or `isbn` for those types
   * and `title` for every other type, and its value decodes back to the query
   * exactly: the encoded value holds no `=` that could shift the split.
   */
  lemma SearchParamFields(searchType: string, query: string)
    ensures var parts := Text.Split(SearchParam(searchType, query), '=');
      |parts| == 2
      && parts[0] == (if searchType in {"author", "subject", "isbn"} then searchType else "title")
      && parts[1] == UriEncoding.EncodeUriComponent(query)
      && UriEncoding.DecodeUriComponent(parts[1]) == Some(query)
  {
    var name := ParamName(searchType);
    var value := UriEncoding.EncodeUriComponent(query);
    assert SearchParam(searchType, query) == name + ['='] + value;
    assert '=' !in value by {
      forall i | 0 <= i < |value| ensures value[i] != '=' { }
    }
    Text.SplitNoSeparator(value, '=');
    Text.SplitAtFirst(name, '=', value);
    UriEncoding.EncodeRoundTrip(query);
  }

  /**
   * The URL's query string is exactly two `&`-separated fields: the search
   * parameter and `limit=<n>`, whose number reads back as the limit. The query
   * cannot inject a further field, since its encoding holds no `&`.
   */
  lemma SearchUrlFields(query: string, filters: SearchFilters)
    ensures var url := SearchUrl(query, filters);
      var start := |BaseUrl + SearchPath|;
      start <= |url| && url[..start] == BaseUrl + SearchPath
      && Text.Split(url[start..], '&') == [SearchParam(filters.searchType, query), "limit=" + Text.IntToString(filters.limit)]
      && Text.ParseInt(("limit=" + Text.IntToString(filters.limit))[6..]) == Some(filters.limit)
  {
    var prefix := BaseUrl + SearchPath;
    var param := SearchParam(filters.searchType, query);
    var digits := Text.IntToString(filters.limit);
    var limit := "limit=" + digits;
    var url := SearchUrl(query, filters);
    assert url[|prefix|..] == param + ['&'] + limit;
    assert '&' !in limit by {
      assert forall i :: 6 <= i < |limit| ==> limit[i] == digits[i - 6];
    }
    Text.SplitNoSeparator(limit, '&');
    Text.SplitAtFirst(param, '&', limit);
    assert limit[6..] == digits;
    Text.IntToStringRoundTrip(filters.limit);
  }

  // ------------------------------------------------------------- transform

  /**
   * A document of the search response, reduced to the fields the client reads;
   * the response's other fields are dropped by the projection and not modelled.
   */
  datatype Doc = Doc(
    key: string,
    title: string,
    authorName: Option<seq<string>>,
    firstPublishYear: Option<int>,
    subject: Option<seq<string>>,
    isbn: Option<seq<string>>,
    coverId: Option<int>,
    publisher: Option<seq<string>>,
    language: Option<seq<string>>,
    numberOfPagesMedian: Option<int>,
    ratingsAverage: Option<real>,
    ratingsCount: Option<int>)

  /** `doc.subject?.slice(0, 5)`. */
  function FirstSubjects(subject: Option<seq<string>>): Option<seq<string>> {
    match subject
    case None => None
    case Some(s) => Some(Take(s, MaxSubjects))
  }

  /**
   * `transformBookData`: every field is copied unchanged, except that the
   * subjects are cut to the first five; an absent field stays absent.
   */
  function TransformBookData(doc: Doc): (book: Book)
    ensures book.subject.None? <==> doc.subject.None?
    ensures doc.subject.Some? ==>
      |book.subject.value| == (if |doc.subject.value| < MaxSubjects then |doc.subject.value| else MaxSubjects)
      && book.subject.value == doc.subject.value[..|book.subject.value|]
    ensures book.key == doc.key && book.title == doc.title && book.authorName == doc.authorName
      && book.firstPublishYear == doc.firstPublishYear && book.isbn == doc.isbn
      && book.coverId == doc.coverId && book.publisher == doc.publisher
      && book.language == doc.language && book.numberOfPagesMedian == doc.numberOfPagesMedian
      && book.ratingsAverage == doc.ratingsAverage && book.ratingsCount == doc.ratingsCount
  {
    Book(
      key := doc.key,
      title := doc.title,
      authorName := doc.authorName,
      firstPublishYear := doc.firstPublishYear,
      subject := FirstSubjects(doc.subject),
      isbn := doc.isbn,
      coverId := doc.coverId,
      publisher := doc.publisher,
      language := doc.language,
      numberOfPagesMedian := doc.numberOfPagesMedian,
      ratingsAverage := doc.ratingsAverage,
      ratingsCount := doc.ratingsCount)
  }

  /**
   * The projection loses nothing but the subjects after the fifth: two documents
   * give the same book exactly when they agree on every other field and on
   * their first five subjects (or both have none).
   */
  lemma TransformLosesOnlyLaterSubjects(d1: Doc, d2: Doc)
    ensures TransformBookData(d1) == TransformBookData(d2) <==>
      d1.(subject := None) == d2.(subject := None)
      && d1.subject.None? == d2.subject.None?
      && (d1.subject.Some? && d2.subject.Some? ==>
            Take(d1.subject.value, MaxSubjects) == Take(d2.subject.value, MaxSubjects))
  {
    if TransformBookData(d1) == TransformBookData(d2) {
      assert FirstSubjects(d1.subject) == TransformBookData(d1).subject;
    }
  }

  /**
   * `docs.map(transformBookData)`: one book per document, in the documents'
   * order, each the projection of its document, so with the document's key and
   * title and at most five subjects.
   */
  function TransformAll(docs: seq<Doc>): (books: seq<Book>)
    ensures |books| == |docs|
    ensures forall i :: 0 <= i < |docs| ==> books[i] == TransformBookData(docs[i])
    ensures forall i :: 0 <= i < |docs| ==>
      books[i].key == docs[i].key && books[i].title == docs[i].title
      && (books[i].subject.Some? ==> |books[i].subject.value| <= MaxSubjects)
  {
    seq(|docs|, i requires 0 <= i < |docs| => TransformBookData(docs[i]))
  }

  // ------------------------------------------------------------------ sort

  /** `book.ratings_average || 0`. */
  function Rating(book: Book): real {
    book.ratingsAverage.GetOr(0.0)
  }

  /** `book.first_publish_year || 0`. */
  function Year(book: Book): int {
    book.firstPublishYear.GetOr(0)
  }

  /** The orders `sortBooks` knows; every other sort key leaves the order alone. */
  datatype SortOrder = ByRating | Newest | Oldest | Unordered

  /** The case of the comparator's switch that a sort key selects. */
  function OrderOf(sortBy: string): SortOrder {
    if sortBy == "rating" then ByRating
    else if sortBy == "new" then Newest
    else if sortBy == "old" then Oldest
    else Unordered
  }

  /**
   * The position a book takes in an order: smaller values come first. Highest
   * rating first, newest first, oldest first; all books are equal when unordered.
   */
  function SortKey(order: SortOrder, book: Book): real {
    match order
    case ByRating => -Rating(book)
    case Newest => -(Year(book) as real)
    case Oldest => Year(book) as real
    case Unordered => 0.0
  }

  /** The comparator `sortBooks` passes to `Array.prototype.sort`; it only ever compares sort keys. */
  function Compare(sortBy: string, a: Book, b: Book): (d: real)
    ensures d == SortKey(OrderOf(sortBy), a) - SortKey(OrderOf(sortBy), b)
  {
    if sortBy == "rating" then Rating(b) - Rating(a)
    else if sortBy == "new" then (Year(b) - Year(a)) as real
    else if sortBy == "old" then (Year(a) - Year(b)) as real
    else 0.0
  }

  ghost predicate IsSortedBy(order: SortOrder, books: seq<Book>) {
    forall i, j :: 0 <= i < j < |books| ==> SortKey(order, books[i]) <= SortKey(order, books[j])
  }

  /** Whether a book has sort key `k`. */
  function HasKey(order: SortOrder, k: real): Book -> bool {
    book => SortKey(order, book) == k
  }

  /** The books whose sort key is `k`, in the order of the list. */
  function WithKey(order: SortOrder, books: seq<Book>, k: real): seq<Book> {
    Filter(books, HasKey(order, k))
  }

  /**
   * A stable sort of `books`: ordered by key, and books with equal keys appear
   * in the order they had in `books`.
   */
  ghost predicate IsStableSortOf(order: SortOrder, sorted: seq<Book>, books: seq<Book>) {
    IsSortedBy(order, sorted) && forall k :: WithKey(order, sorted, k) == WithKey(order, books, k)
  }

  /**
   * Places `book` in front of the first book of `sorted` that the comparator
   * does not rank before it, so that it stays ahead of the books it ties with.
   */
  function Insert(order: SortOrder, book: Book, sorted: seq<Book>): (r: seq<Book>)
    ensures |r| == |sorted| + 1
    ensures multiset(r) == multiset(sorted) + multiset{book}
  {
    if sorted == [] || SortKey(order, book) <= SortKey(order, sorted[0]) then [book] + sorted
    else
      assert sorted == [sorted[0]] + sorted[1..];
      [sorted[0]] + Insert(order, book, sorted[1..])
  }

  /** Inserting into a sorted list keeps it sorted. */
  lemma {:induction false} InsertSorted(order: SortOrder, book: Book, sorted: seq<Book>)
    requires IsSortedBy(order, sorted)
    ensures IsSortedBy(order, Insert(order, book, sorted))
  {
    if sorted != [] && SortKey(order, book) > SortKey(order, sorted[0]) {
      var rest := Insert(order, book, sorted[1..]);
      InsertSorted(order, book, sorted[1..]);
      forall j | 0 <= j < |rest| ensures SortKey(order, sorted[0]) <= SortKey(order, rest[j]) {
        assert rest[j] in multiset(sorted[1..]) + multiset{book};
      }
    }
  }

  /** Insertion sort by key: each book goes in front of the later books it does not rank after. */
  function SortByKey(books: seq<Book>, order: SortOrder): (sorted: seq<Book>)
    ensures |sorted| == |books| && multiset(sorted) == multiset(books)
    ensures IsSortedBy(order, sorted)
  {
    if books == [] then []
    else
      assert books == [books[0]] + books[1..];
      InsertSorted(order, books[0], SortByKey(books[1..], order));
      Insert(order, books[0], SortByKey(books[1..], order))
  }

  /**
   * `sortBooks`: sorts a copy of the list (the input is a value and stays as it
   * was) into a permutation that is highest rating first for `rating`, newest
   * first for `new` and oldest first for `old`, an absent value counting as 0.
   */
  function SortBooks(books: seq<Book>, sortBy: string): (sorted: seq<Book>)
    ensures |sorted| == |books| && multiset(sorted) == multiset(books)
    ensures IsSortedBy(OrderOf(sortBy), sorted)
    ensures sortBy == "rating" ==> forall i, j :: 0 <= i < j < |sorted| ==> Rating(sorted[i]) >= Rating(sorted[j])
    ensures sortBy == "new" ==> forall i, j :: 0 <= i < j < |sorted| ==> Year(sorted[i]) >= Year(sorted[j])
    ensures sortBy == "old" ==> forall i, j :: 0 <= i < j < |sorted| ==> Year(sorted[i]) <= Year(sorted[j])
  {
    SortByKey(books, OrderOf(sortBy))
  }

  /** Filtering by key, one book at a time. */
  lemma WithKeyCons(order: SortOrder, book: Book, rest: seq<Book>, k: real)
    ensures WithKey(order, [book] + rest, k)
      == (if SortKey(order, book) == k then [book] else []) + WithKey(order, rest, k)
  {
    FilterAppend([book], rest, HasKey(order, k));
  }

  /** Inserting puts the book in front of the books of its own key. */
  lemma {:induction false} InsertWithKey(order: SortOrder, book: Book, sorted: seq<Book>, k: real)
    requires IsSortedBy(order, sorted)
    ensures WithKey(order, Insert(order, book, sorted), k)
      == (if SortKey(order, book) == k then [book] else []) + WithKey(order, sorted, k)
  {
    if sorted == [] || SortKey(order, book) <= SortKey(order, sorted[0]) {
      WithKeyCons(order, book, sorted, k);
    } else {
      var first, rest := sorted[0], sorted[1..];
      assert [first] + rest == sorted;
      assert IsSortedBy(order, rest);
      InsertWithKey(order, book, rest, k);
      WithKeyCons(order, first, Insert(order, book, rest), k);
      WithKeyCons(order, first, rest, k);
      if SortKey(order, book) == k {
        assert SortKey(order, first) != k;
      }
    }
  }

  /** Stability: for every key, the books with that key keep their input order. */
  lemma {:induction false} SortByKeyStable(books: seq<Book>, order: SortOrder, k: real)
    ensures WithKey(order, SortByKey(books, order), k) == WithKey(order, books, k)
  {
    if books != [] {
      SortByKeyStable(books[1..], order, k);
      InsertWithKey(order, books[0], SortByKey(books[1..], order), k);
      WithKeyCons(order, books[0], books[1..], k);
      assert [books[0]] + books[1..] == books;
    }
  }

  /** A book is among the books of its own key. */
  lemma InWithKey(order: SortOrder, books: seq<Book>, i: nat)
    requires i < |books|
    ensures books[i] in WithKey(order, books, SortKey(order, books[i]))
  {
    FilterMembers(books, HasKey(order, SortKey(order, books[i])), books[i]);
  }

  /** What is among the books of key `k` is a book of the list with key `k`. */
  lemma InWithKeyOnly(order: SortOrder, books: seq<Book>, k: real, x: Book)
    requires x in WithKey(order, books, k)
    ensures x in books && SortKey(order, x) == k
  {
    FilterMembers(books, HasKey(order, k), x);
  }

  /** Two sorted lists with the same books per key start with the same key. */
  lemma SameFirstKey(order: SortOrder, r1: seq<Book>, r2: seq<Book>)
    requires r1 != [] && r2 != []
    requires IsSortedBy(order, r1) && IsSortedBy(order, r2)
    requires forall k :: WithKey(order, r1, k) == WithKey(order, r2, k)
    ensures SortKey(order, r1[0]) == SortKey(order, r2[0])
  {
    var k1, k2 := SortKey(order, r1[0]), SortKey(order, r2[0]);
    InWithKey(order, r1, 0);
    InWithKey(order, r2, 0);
    assert WithKey(order, r1, k1) == WithKey(order, r2, k1);
    assert WithKey(order, r1, k2) == WithKey(order, r2, k2);
    InWithKeyOnly(order, r2, k1, r1[0]);
    InWithKeyOnly(order, r1, k2, r2[0]);
  }

  /** A list sorted by key is determined by the order within each key. */
  lemma {:induction false} StableSortUnique(order: SortOrder, r1: seq<Book>, r2: seq<Book>)
    requires IsSortedBy(order, r1) && IsSortedBy(order, r2)
    requires forall k :: WithKey(order, r1, k) == WithKey(order, r2, k)
    ensures r1 == r2
    decreases |r1|
  {
    if r1 == [] || r2 == [] {
      if r1 != [] {
        InWithKey(order, r1, 0);
      } else if r2 != [] {
        InWithKey(order, r2, 0);
      }
    } else {
      SameFirstKey(order, r1, r2);
      var k0 := SortKey(order, r1[0]);
      var t1, t2 := r1[1..], r2[1..];
      assert [r1[0]] + t1 == r1;
      assert [r2[0]] + t2 == r2;
      WithKeyCons(order, r1[0], t1, k0);
      WithKeyCons(order, r2[0], t2, k0);
      var w1, w2 := WithKey(order, r1, k0), WithKey(order, r2, k0);
      assert w1 == [r1[0]] + WithKey(order, t1, k0);
      assert w2 == [r2[0]] + WithKey(order, t2, k0);
      assert w1 == w2;
      assert r1[0] == w1[0] == w2[0] == r2[0];
      forall k ensures WithKey(order, t1, k) == WithKey(order, t2, k) {
        WithKeyCons(order, r1[0], t1, k);
        WithKeyCons(order, r2[0], t2, k);
        assert WithKey(order, r1, k) == WithKey(order, r2, k);
        if k == k0 {
          assert WithKey(order, t1, k) == w1[1..];
          assert WithKey(order, t2, k) == w2[1..];
          assert WithKey(order, t1, k) == WithKey(order, t2, k);
        } else {
          assert SortKey(order, r1[0]) != k && SortKey(order, r2[0]) != k;
          assert WithKey(order, r1, k) == WithKey(order, t1, k);
          assert WithKey(order, r2, k) == WithKey(order, t2, k);
        }
      }
      StableSortUnique(order, t1, t2);
    }
  }

  /**
   * `sortBooks` is the stable sort: its result is ordered by the comparator,
   * books that tie keep their input order, and no other list has both properties.
   */
  lemma SortBooksIsStableSort(books: seq<Book>, sortBy: string, sorted: seq<Book>)
    ensures IsStableSortOf(OrderOf(sortBy), SortBooks(books, sortBy), books)
    ensures IsStableSortOf(OrderOf(sortBy), sorted, books) <==> sorted == SortBooks(books, sortBy)
  {
    var order := OrderOf(sortBy);
    forall k ensures WithKey(order, SortByKey(books, order), k) == WithKey(order, books, k) {
      SortByKeyStable(books, order, k);
    }
    if IsStableSortOf(order, sorted, books) {
      StableSortUnique(order, sorted, SortByKey(books, order));
    }
  }

  /** With every book tied, the insertion sort changes nothing. */
  lemma {:induction false} UnorderedKeepsOrder(books: seq<Book>)
    ensures SortByKey(books, Unordered) == books
  {
    if books != [] {
      UnorderedKeepsOrder(books[1..]);
      assert [books[0]] + books[1..] == books;
    }
  }

  /** For `relevance` and any unrecognised key the list comes back exactly as it was. */
  lemma RelevanceKeepsOrder(books: seq<Book>, sortBy: string)
    requires sortBy != "rating" && sortBy != "new" && sortBy != "old"
    ensures SortBooks(books, sortBy) == books
  {
    UnorderedKeepsOrder(books);
  }

  // ---------------------------------------------------------------- search

  /** What `response.json()` yields. */
  datatype Payload =
    | Unparsable                        // the body is not JSON: `json()` rejects
    | JsonNull                          // `null`: reading `.docs` throws
    | JsonValue(docs: Option<seq<Doc>>) // any other value; `None` when `docs` is absent or falsy

  /** What `fetch` yields. */
  datatype Reply =
    | NetworkError
    | Response(ok: bool, status: int, payload: Payload)

  /** The promise `searchBooks` returns: fulfilled with books, or rejected. */
  datatype SearchOutcome = Found(books: seq<Book>) | SearchFailed

  /**
   * The part of `searchBooks` after `fetch`. It fails exactly when the request
   * failed, the status is not ok or the body is not a usable JSON value; a
   * response without documents gives no books rather than a failure; otherwise
   * every document gives one book, the books are the stable sort of them (in
   * sort order, ties in the response's order), and under `relevance` they are in
   * the response's order.
   */
  function SearchResults(reply: Reply, sortBy: string): (outcome: SearchOutcome)
    ensures outcome.SearchFailed? <==>
      reply.NetworkError? || !reply.ok || !reply.payload.JsonValue?
    ensures outcome.Found? && reply.payload.docs.None? ==> outcome.books == []
    ensures outcome.Found? && reply.payload.docs.Some? ==>
      var docs := reply.payload.docs.value;
      |outcome.books| == |docs|
      && multiset(outcome.books) == multiset(TransformAll(docs))
      && IsStableSortOf(OrderOf(sortBy), outcome.books, TransformAll(docs))
      && (sortBy != "rating" && sortBy != "new" && sortBy != "old" ==> outcome.books == TransformAll(docs))
    ensures outcome.Found? ==> forall i :: 0 <= i < |outcome.books| ==>
      var subject := outcome.books[i].subject;
      subject.Some? ==> |subject.value| <= MaxSubjects
  {
    if reply.NetworkError? || !reply.ok then SearchFailed
    else
      match reply.payload
      case Unparsable => SearchFailed
      case JsonNull => SearchFailed
      case JsonValue(None) => Found([])
      case JsonValue(Some(docs)) =>
        SortedResultsFacts(docs, sortBy);
        Found(SortBooks(TransformAll(docs), sortBy))
  }

  /** The sorted books of a response: the stable sort of the documents' books, with at most five subjects each. */
  lemma SortedResultsFacts(docs: seq<Doc>, sortBy: string)
    ensures var books := SortBooks(TransformAll(docs), sortBy);
      IsStableSortOf(OrderOf(sortBy), books, TransformAll(docs))
      && (sortBy != "rating" && sortBy != "new" && sortBy != "old" ==> books == TransformAll(docs))
      && forall i :: 0 <= i < |books| ==>
           (books[i].subject.Some? ==> |books[i].subject.value| <= MaxSubjects)
  {
    var all := TransformAll(docs);
    var books := SortBooks(all, sortBy);
    SortBooksIsStableSort(all, sortBy, books);
    if sortBy != "rating" && sortBy != "new" && sortBy != "old" {
      RelevanceKeepsOrder(all, sortBy);
    }
    forall i | 0 <= i < |books|
      ensures books[i].subject.Some? ==> |books[i].subject.value| <= MaxSubjects
    {
      assert books[i] in multiset(all);
      var j :| 0 <= j < |all| && all[j] == books[i];
    }
  }

  /**
   * `searchBooks`, with the network as a parameter: it fetches the search URL
   * and fails exactly when that fetch fails, is not ok or gives no usable JSON;
   * otherwise its books are `sortBooks` of the transformed documents, or none.
   */
  function SearchBooks(query: string, filters: SearchFilters, fetch: string -> Reply): (outcome: SearchOutcome)
    ensures var reply := fetch(SearchUrl(query, filters));
      (outcome.SearchFailed? <==> reply.NetworkError? || !reply.ok || !reply.payload.JsonValue?)
      && (outcome.Found? && reply.payload.docs.None? ==> outcome.books == [])
      && (outcome.Found? && reply.payload.docs.Some? ==>
            outcome.books == SortBooks(TransformAll(reply.payload.docs.value), filters.sortBy))
  {
    SearchResults(fetch(SearchUrl(query, filters)), filters.sortBy)
  }

  // ----------------------------------------------------------------- cover

  datatype CoverSize = S | M | L

  function SizeLetter(size: CoverSize): char {
    match size
    case S => 'S'
    case M => 'M'
    case L => 'L'
  }

  /**
   * `getCoverImageUrl`; the size defaults to `L`. The URL names its cover id
   * and size unambiguously: both can be read back out of it.
   */
  function CoverImageUrl(coverId: int, size: CoverSize := L): (url: string)
    ensures ParseCoverUrl(url) == Some((coverId, size))
  {
    var digits := Text.IntToString(coverId);
    var url := CoverUrlPrefix + digits + "-" + [SizeLetter(size)] + ".jpg";
    var p := |CoverUrlPrefix|;
    assert url[..p] == CoverUrlPrefix;
    assert url[p..|url| - 6] == digits;
    assert url[|url| - 4..] == ".jpg";
    Text.IntToStringRoundTrip(coverId);
    url
  }

  /** Reads the cover id and size back out of a cover URL. */
  function ParseCoverUrl(url: string): Option<(int, CoverSize)> {
    var n := |url|;
    var p := |CoverUrlPrefix|;
    if n < p + 7 || url[..p] != CoverUrlPrefix || url[n - 4..] != ".jpg" || url[n - 6] != '-' then None
    else
      var size := match url[n - 5]
        case 'S' => Some(S)
        case 'M' => Some(M)
        case 'L' => Some(L)
        case _ => None;
      match (Text.ParseInt(url[p..n - 6]), size)
      case (Some(id), Some(s)) => Some((id, s))
      case _ => None
  }
}
