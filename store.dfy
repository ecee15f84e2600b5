/**
 The storefront's root store: its own state (the search text and the list of
 favourite product ids), the two mutations `setSearchQuery` and
 `toggleFavorite`, and the getter `isFavorite`. The browser's local storage is
 represented by the ghost field `persisted`, the value of the `favorites` key
 after parsing (None while the key is missing).
 */
module RootStore {
  import opened Favorites

  datatype Option<T> = None | Some(value: T)

  class Store<T(==)> {
    var searchQuery: string
    var favorites: seq<T>
    ghost var persisted: Option<seq<T>>

    /** Creation of the store: an empty search text, and the favourites read
        back from storage, or an empty list when nothing was stored. A stored
        empty list, `Some([])`, gives `[]` as well; other falsy parsed values,
        which `|| []` also maps to `[]`, are not represented. */
    constructor (stored: Option<seq<T>>)
      ensures searchQuery == ""
      ensures favorites == (if stored.Some? then stored.value else [])
      ensures persisted == stored
    {
      searchQuery := "";
      favorites := if stored.Some? then stored.value else [];
      persisted := stored;
    }

    /** `isFavorite(productId)`: whether the id is one of the favourites; it
        agrees with the lookup that `toggleFavorite` makes. */
    function IsFavorite(productId: T): (r: bool)
      reads this
      ensures r <==> productId in favorites
      ensures r <==> IndexOf(favorites, productId) != -1
    {
      Includes(favorites, productId)
    }

    /** `setSearchQuery(query)`: the search text becomes `query`, whatever it is. */
    method SetSearchQuery(query: string)
      modifies this`searchQuery
      ensures searchQuery == query
      ensures favorites == old(favorites) && persisted == old(persisted)
    {
      searchQuery := query;
    }

    /** `toggleFavorite(productId)`: append the id when it is not a favourite,
        otherwise splice out its first occurrence; then write the whole list to
        storage. */
    method ToggleFavorite(productId: T)
      modifies this`favorites, this`persisted
      ensures favorites == Toggle(old(favorites), productId)
      ensures !old(IsFavorite(productId)) ==> favorites == old(favorites) + [productId]
      ensures old(IsFavorite(productId)) ==> favorites == RemoveFirst(old(favorites), productId)
      ensures forall y :: y != productId ==> (IsFavorite(y) <==> y in old(favorites))
      ensures NoDup(old(favorites)) ==> NoDup(favorites) && IsFavorite(productId) == !old(IsFavorite(productId))
      ensures multiset(old(favorites))[productId] <= 1 ==> IsFavorite(productId) == !old(IsFavorite(productId))
      ensures persisted == Some(favorites)
      ensures searchQuery == old(searchQuery)
    {
      ghost var before := favorites;
      ToggleKeepsOthers(before, productId);
      if NoDup(before) {
        ToggleFlipsWithoutDuplicates(before, productId);
      }
      if multiset(before)[productId] <= 1 {
        ToggleFlipsAtMostOnce(before, productId);
      }
      var index := IndexOf(favorites, productId);
      if index == -1 {
        favorites := favorites + [productId];
      } else {
        favorites := RemoveAt(favorites, index);
      }
      assert favorites == Toggle(before, productId);
      persisted := Some(favorites);
    }
  }

  /** Two toggles of an id that was not a favourite leave the store's list
      exactly as it was, and its storage holds that list. */
  method ToggleTwiceAbsent<T(==)>(store: Store<T>, productId: T)
    requires !store.IsFavorite(productId)
    modifies store
    ensures store.favorites == old(store.favorites)
    ensures store.persisted == Some(old(store.favorites))
    ensures store.searchQuery == old(store.searchQuery)
  {
    ToggleTwiceAbsentRestores(store.favorites, productId);
    store.ToggleFavorite(productId);
    store.ToggleFavorite(productId);
  }
}
