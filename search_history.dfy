/**
 * The search history hook: a most-recent-first list of at most ten searches,
 * in which a new search replaces any earlier one with the same query (compared
 * case-insensitively) and the same search type.
 */
module SearchHistory {
  import opened BookTypes
  import opened Sequences
  import Text

  const MaxHistoryItems := 10

  /** The filter's test for an earlier entry of the same search. */
  predicate Matches(item: SearchHistoryItem, query: string, searchType: string) {
    Text.ToLower(item.query) == Text.ToLower(query) && item.searchType == searchType
  }

  /** The callback given to `filter`: keeps the entries that do not match. */
  function Survives(query: string, searchType: string): SearchHistoryItem -> bool {
    item => !Matches(item, query, searchType)
  }

  /**
   * The updater `addToHistory` hands to `setSearchHistory`: drop the matching
   * entries, put the new entry first, keep at most ten. The new entry holds the
   * trimmed query, while the comparison uses the query as given.
   */
  function AddEntry(prev: seq<SearchHistoryItem>, query: string, searchType: string, now: int)
    : (next: seq<SearchHistoryItem>)
    ensures 1 <= |next| <= MaxHistoryItems
    ensures next[0] == SearchHistoryItem(Text.Trim(query), searchType, now)
    ensures forall i :: 1 <= i < |next| ==> !Matches(next[i], query, searchType)
  {
    var newItem := SearchHistoryItem(Text.Trim(query), searchType, now);
    Take([newItem] + Filter(prev, Survives(query, searchType)), MaxHistoryItems)
  }

  /**
   * The entries after the new one are the first surviving entries of `prev`,
   * as many as fit under the cap: the cap drops the oldest survivors.
   */
  lemma AddKeepsFirstSurvivors(prev: seq<SearchHistoryItem>, query: string, searchType: string, now: int)
    ensures var next := AddEntry(prev, query, searchType, now);
      var filtered := Filter(prev, Survives(query, searchType));
      |next| == (if 1 + |filtered| < MaxHistoryItems then 1 + |filtered| else MaxHistoryItems)
      && next[1..] == filtered[..|next| - 1]
  {
    var filtered := Filter(prev, Survives(query, searchType));
    TakeAfterHead(SearchHistoryItem(Text.Trim(query), searchType, now), filtered, MaxHistoryItems);
  }

  /** The entries after the new one come from `prev`, in the order they had there. */
  lemma AddKeepsOrder(prev: seq<SearchHistoryItem>, query: string, searchType: string, now: int)
    ensures var next := AddEntry(prev, query, searchType, now);
      IsSubsequence(next[1..], prev)
  {
    var filtered := Filter(prev, Survives(query, searchType));
    var next := AddEntry(prev, query, searchType, now);
    AddKeepsFirstSurvivors(prev, query, searchType, now);
    FilterIsSubsequence(prev, Survives(query, searchType));
    PrefixIsSubsequence(filtered, prev, |next| - 1);
  }

  /**
   * Below the cap nothing but the matching entries is lost: each other entry of
   * `prev` is still there as often as before, and the matching ones are gone.
   */
  lemma AddDropsOnlyMatches(prev: seq<SearchHistoryItem>, query: string, searchType: string, now: int)
    requires |AddEntry(prev, query, searchType, now)| < MaxHistoryItems
    ensures var next := AddEntry(prev, query, searchType, now);
      forall x :: multiset(next[1..])[x] == if Matches(x, query, searchType) then 0 else multiset(prev)[x]
  {
    var filtered := Filter(prev, Survives(query, searchType));
    var next := AddEntry(prev, query, searchType, now);
    assert next[1..] == filtered;
    forall x ensures multiset(filtered)[x] == if Matches(x, query, searchType) then 0 else multiset(prev)[x] {
      FilterCount(prev, Survives(query, searchType), x);
    }
  }

  /** A full history with no matching entry loses its oldest entry and shifts the rest down. */
  lemma AddToFullHistory(prev: seq<SearchHistoryItem>, query: string, searchType: string, now: int)
    requires |prev| == MaxHistoryItems
    requires forall i :: 0 <= i < |prev| ==> !Matches(prev[i], query, searchType)
    ensures AddEntry(prev, query, searchType, now)
      == [SearchHistoryItem(Text.Trim(query), searchType, now)] + prev[..MaxHistoryItems - 1]
  {
    FilterKeepsAll(prev, Survives(query, searchType));
  }

  /**
   * Searching for the same trimmed query and type twice in a row leaves one
   * entry for it: the first, carrying the second timestamp.
   */
  lemma AddTwice(prev: seq<SearchHistoryItem>, query: string, searchType: string, t1: int, t2: int)
    requires Text.IsTrimmed(query)
    ensures var next := AddEntry(AddEntry(prev, query, searchType, t1), query, searchType, t2);
      next[0] == SearchHistoryItem(query, searchType, t2)
      && forall i :: 0 <= i < |next| ==> (Matches(next[i], query, searchType) <==> i == 0)
  {
    Text.TrimTrimmed(query);
  }

  /** No two entries are for the same search. */
  ghost predicate NoRepeatedSearch(history: seq<SearchHistoryItem>) {
    forall i, j :: 0 <= i < j < |history| ==> !Matches(history[j], history[i].query, history[i].searchType)
  }

  /** Dropping entries cannot create a repeated search. */
  lemma {:induction false} FilterKeepsNoRepeat(prev: seq<SearchHistoryItem>, p: SearchHistoryItem -> bool)
    requires NoRepeatedSearch(prev)
    ensures NoRepeatedSearch(Filter(prev, p))
  {
    if prev != [] {
      var rest := Filter(prev[1..], p);
      FilterKeepsNoRepeat(prev[1..], p);
      assert Filter(prev, p) == (if p(prev[0]) then [prev[0]] else []) + rest;
      forall j | 0 <= j < |rest| ensures !Matches(rest[j], prev[0].query, prev[0].searchType) {
        FilterMembers(prev[1..], p, rest[j]);
        var m :| 0 <= m < |prev[1..]| && prev[1..][m] == rest[j];
        assert prev[m + 1] == rest[j];
      }
    }
  }

  /** Adding a trimmed query keeps a history without repeated searches without them. */
  lemma AddKeepsNoRepeat(prev: seq<SearchHistoryItem>, query: string, searchType: string, now: int)
    requires Text.IsTrimmed(query)
    requires NoRepeatedSearch(prev)
    ensures NoRepeatedSearch(AddEntry(prev, query, searchType, now))
  {
    var filtered := Filter(prev, Survives(query, searchType));
    var next := AddEntry(prev, query, searchType, now);
    Text.TrimTrimmed(query);
    FilterKeepsNoRepeat(prev, Survives(query, searchType));
    assert next[1..] == filtered[..|next| - 1];
    forall i, j | 0 <= i < j < |next|
      ensures !Matches(next[j], next[i].query, next[i].searchType)
    {
      if i > 0 {
        assert next[i] == filtered[i - 1] && next[j] == filtered[j - 1];
      }
    }
  }

  /** The hook's state: the `searchHistory` cell and the two operations that replace it. */
  class HistoryStore {
    var searchHistory: seq<SearchHistoryItem>

    constructor ()
      ensures searchHistory == []
    {
      searchHistory := [];
    }

    /** `addToHistory(query, type)`, with the clock reading passed in as `now`. */
    method AddToHistory(query: string, searchType: string, now: int)
      modifies this
      ensures searchHistory == AddEntry(old(searchHistory), query, searchType, now)
      ensures |searchHistory| <= MaxHistoryItems
      ensures searchHistory[0] == SearchHistoryItem(Text.Trim(query), searchType, now)
    {
      searchHistory := AddEntry(searchHistory, query, searchType, now);
    }

    /** `clearHistory()`. */
    method ClearHistory()
      modifies this
      ensures searchHistory == []
    {
      searchHistory := [];
    }
  }
}
