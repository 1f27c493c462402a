/**
 * The favourites hook: a list of book keys in which toggling a key removes it
 * if it is there and appends it if it is not.
 */
module Favorites {
  import opened Sequences

  /** `Array.prototype.indexOf`: the first position of `x`, or -1. */
  function IndexOf(s: seq<string>, x: string): (r: int)
    ensures -1 <= r < |s|
    ensures r == -1 <==> x !in s
    ensures r >= 0 ==> s[r] == x && forall j :: 0 <= j < r ==> s[j] != x
  {
    if s == [] then -1
    else if s[0] == x then 0
    else
      var i := IndexOf(s[1..], x);
      if i == -1 then -1 else i + 1
  }

  /** `Array.prototype.includes`. */
  function Includes(s: seq<string>, x: string): (r: bool)
    ensures r <==> x in s
  {
    s != [] && (s[0] == x || Includes(s[1..], x))
  }

  /** The callback given to `filter`: keeps every other key. */
  function IsNot(bookKey: string): string -> bool {
    key => key != bookKey
  }

  /** The updater `toggleFavorite` hands to `setFavorites`. */
  function Toggled(prev: seq<string>, bookKey: string): (next: seq<string>)
    ensures bookKey in next <==> bookKey !in prev
    ensures forall k :: k != bookKey ==> (k in next <==> k in prev)
  {
    if IndexOf(prev, bookKey) > -1 then
      var next := Filter(prev, IsNot(bookKey));
      assert forall k :: k in next <==> k in prev && k != bookKey by {
        forall k ensures k in next <==> k in prev && k != bookKey {
          FilterMembers(prev, IsNot(bookKey), k);
        }
      }
      next
    else
      prev + [bookKey]
  }

  /** Toggling an absent key appends it and changes nothing else. */
  lemma ToggleAbsent(prev: seq<string>, bookKey: string)
    requires bookKey !in prev
    ensures Toggled(prev, bookKey) == prev + [bookKey]
  {
  }

  /**
   * Toggling a present key removes every occurrence of it, keeps every other
   * key as often as before, and keeps their order.
   */
  lemma TogglePresent(prev: seq<string>, bookKey: string)
    requires bookKey in prev
    ensures var next := Toggled(prev, bookKey);
      bookKey !in next
      && IsSubsequence(next, prev)
      && forall k :: k != bookKey ==> multiset(next)[k] == multiset(prev)[k]
  {
    FilterIsSubsequence(prev, IsNot(bookKey));
    forall k | k != bookKey ensures multiset(Toggled(prev, bookKey))[k] == multiset(prev)[k] {
      FilterCount(prev, IsNot(bookKey), k);
    }
  }

  /** Toggling an absent key twice gives back exactly the original list. */
  lemma ToggleAbsentTwice(prev: seq<string>, bookKey: string)
    requires bookKey !in prev
    ensures Toggled(Toggled(prev, bookKey), bookKey) == prev
  {
    var p := IsNot(bookKey);
    FilterAppend(prev, [bookKey], p);
    FilterKeepsAll(prev, p);
    assert Filter([bookKey], p) == [];
  }

  /**
   * Toggling a present key twice keeps the same set of keys, but the key moves
   * to the end, once: it is an inverse for the set, not for the list.
   */
  lemma TogglePresentTwice(prev: seq<string>, bookKey: string)
    requires bookKey in prev
    ensures var twice := Toggled(Toggled(prev, bookKey), bookKey);
      twice == Toggled(prev, bookKey) + [bookKey]
      && (forall k :: k in twice <==> k in prev)
      && multiset(twice)[bookKey] == 1
  {
    var once := Toggled(prev, bookKey);
    assert bookKey !in once;
    assert multiset(once)[bookKey] == 0;
  }

  /** A list without repeated keys stays without them. */
  lemma ToggleKeepsDistinct(prev: seq<string>, bookKey: string)
    requires Distinct(prev)
    ensures Distinct(Toggled(prev, bookKey))
  {
    if bookKey in prev {
      FilterKeepsDistinct(prev, IsNot(bookKey));
    }
  }

  /** The hook's state: the `favorites` cell, the toggle that replaces it and the membership test. */
  class FavoritesStore {
    var favorites: seq<string>

    constructor ()
      ensures favorites == []
    {
      favorites := [];
    }

    /** `toggleFavorite(bookKey)`. */
    method ToggleFavorite(bookKey: string)
      modifies this
      ensures favorites == Toggled(old(favorites), bookKey)
      ensures bookKey in favorites <==> bookKey !in old(favorites)
    {
      favorites := Toggled(favorites, bookKey);
    }

    /** `isFavorite(bookKey)`: `favorites.includes(bookKey)`. */
    function IsFavorite(bookKey: string): (r: bool)
      reads this
      ensures r <==> bookKey in favorites
    {
      Includes(favorites, bookKey)
    }
  }
}
