/** The client's record types (`Book`, `SearchFilters`, `SearchHistoryItem`). */
module BookTypes {
  import opened Wrappers

  /**
   * A book as the client holds it. `key` and `title` are always present; every
   * other field may be absent. `ratingsAverage` is a JavaScript number that the
   * client only compares, so it is an exact real here.
   */
  datatype Book = Book(
    key: string,
    title: string,
    authorName: Option<seq<string>>,
    firstPublishYear: Option<int>,
    subject: Option<seq<string>>,
    isbn: Option<seq<string>>,
    coverId: Option<int>,
    publisher: Option<seq<string>>,
    language: Option<seq<string>>,
    numberOfPagesMedian: Option<int>,
    ratingsAverage: Option<real>,
    ratingsCount: Option<int>)

  /**
   * The options of one search. The search type and the sort key are strings,
   * as the service switches on them with a default branch for any other value.
   */
  datatype SearchFilters = SearchFilters(searchType: string, sortBy: string, limit: int)

  /** One remembered search; `timestamp` is milliseconds since the epoch. */
  datatype SearchHistoryItem = SearchHistoryItem(query: string, searchType: string, timestamp: int)
}
