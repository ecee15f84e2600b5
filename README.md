# Favourites store of the vuefin storefront, in Dafny

This project models the root Vuex store of the vuefin single-page shop
(`src/store/index.js`). The store holds two pieces of state of its own:

- `searchQuery`, the text typed into the search box;
- `favorites`, the ordered list of product ids the shopper has marked.

It offers two mutations and one getter:

- `setSearchQuery(query)` overwrites the search text.
- `toggleFavorite(productId)` looks the id up with `indexOf`. If the id is absent, it is pushed onto the end. If it is present, its first occurrence is spliced out. The whole list is then written to local storage.
- `isFavorite(productId)` tests membership with `includes`.

`favorites.dfy` (module `Favorites`) holds the list operations as values:

- `indexOf`, `includes` and `splice(i, 1)`.
- `Toggle`, the list that one toggle produces.
- `RemoveFirst`, a recursive reference definition of "drop the first occurrence".
- Lemmas about membership, order, duplicates and double toggles.

`store.dfy` (module `RootStore`) holds the store as a class `Store`:

- The fields `searchQuery` and `favorites` are updated in place by the methods `SetSearchQuery` and `ToggleFavorite`.
- The function `IsFavorite` is the getter.
- Local storage is the ghost field `persisted`. It holds the parsed value of the `favorites` key, or `None` while the key is missing.

Product ids are a type parameter with equality.

The no-duplicates property is not an invariant of the store. The list loaded at startup is not deduplicated by the code. So the lemmas that need it take it as a premise, and `ToggleFavorite` promises it as "no duplicates before implies none after". The flip of the toggled id only needs that id to occur at most once (`ToggleFlipsAtMostOnce`), and other ids may be duplicated. Two lemmas show what happens when the id itself is duplicated. `ToggleWithDuplicateKeepsMember`: with a second copy, one toggle leaves the id a favourite. `ToggleTwiceRestoresMembershipIff`: two toggles restore the id's membership exactly when it does not occur exactly twice.

## Model

| member | source | states |
|---|---|---|
| `Favorites.IndexOf` | src/store/index.js:21 | The result is -1 exactly when the id is absent. Otherwise it is a position holding the id, and no earlier position holds it. |
| `Favorites.Includes` | src/store/index.js:32 | True exactly when some position of the list holds the id. |
| `Favorites.RemoveAt` | src/store/index.js:25 | `splice(i, 1)` makes the list one shorter. Elements before `i` keep their positions, and elements after it move one place forward. |
| `Favorites.RemoveFirst` | src/store/index.js:24-25 | Dropping the first occurrence shortens the list by one when the id is present and changes nothing when it is absent. |
| `Favorites.RemoveFirstMultiset` | src/store/index.js:24-25 | Dropping the first occurrence takes exactly one copy of the id out of the multiset of elements, and nothing else. |
| `Favorites.Toggle` | src/store/index.js:20-26 | An absent id is appended at the end. A present id has its first occurrence dropped. |
| `Favorites.ToggleMultiset` | src/store/index.js:20-26 | The multiset of elements gains one copy of an absent id, or loses one copy of a present id. |
| `Favorites.SpliceAtIndexOfIsRemoveFirst` | src/store/index.js:21-25 | Splicing at the position `indexOf` reports equals the recursive "drop the first occurrence". |
| `Favorites.TogglePresentRemovesFirstOccurrence` | src/store/index.js:21-25 | For a present id, the toggled list is the original with the element at the id's first position cut out, all others kept in order. |
| `Favorites.ToggleKeepsOthers` | src/store/index.js:20-26 | A toggle never changes whether any other id is in the list. |
| `Favorites.ToggleFlipsWithoutDuplicates` | src/store/index.js:20-26 | On a duplicate-free list, the toggled list is duplicate-free and the toggled id's membership is negated. |
| `Favorites.ToggleFlipsAtMostOnce` | src/store/index.js:20-26 | When the id occurs at most once, a toggle negates its membership, whatever other ids are duplicated. |
| `Favorites.ToggleWithDuplicateKeepsMember` | src/store/index.js:21-25 | If the id occurs twice, it is still in the list after one toggle. |
| `Favorites.ToggleTwiceRestoresMembershipIff` | src/store/index.js:21-25 | For every list, two toggles restore the id's membership if and only if the id does not occur exactly twice. |
| `Favorites.ToggleTwiceAbsentRestores` | src/store/index.js:21-25 | Toggling an absent id twice gives back exactly the original list. |
| `Favorites.ToggleTwicePresentMovesToEnd` | src/store/index.js:21-25 | When the id occurs exactly once, toggling it twice gives the list without it plus the id at the end. The same ids remain, with the same multiset. |
| `RootStore.Store.constructor` | src/store/index.js:12-15 | The store starts with an empty search text. Its favourites are the stored list, or the empty list when nothing was stored. |
| `RootStore.Store.IsFavorite` | src/store/index.js:31-33 | True exactly when the id is in `favorites`, and exactly when `indexOf` would find it. It reads the state and changes none. |
| `RootStore.Store.SetSearchQuery` | src/store/index.js:17-19 | The search text becomes the given string, including the empty string. Favourites and storage are unchanged. |
| `RootStore.Store.ToggleFavorite` | src/store/index.js:20-28 | The new list is the toggle of the old one: an append for a non-favourite, the first occurrence dropped for a favourite. Other ids keep their membership. A duplicate-free list stays duplicate-free. The id's `IsFavorite` flips when the list was duplicate-free or held the id at most once. When the storage write succeeds, storage then holds the new list. The search text is unchanged. |
| `RootStore.ToggleTwiceAbsent` | src/store/index.js:20-28 | Two toggles of a non-favourite restore the store's list exactly, and the search text is unchanged. When the storage writes succeed, storage holds that list. |

## Left out

- RootStore.Store.ToggleFavorite: the storage write is taken to succeed, and the JSON round trip is taken to be exact. The round trip is exact for string ids and finite-number ids, but `undefined`, `NaN` and `Infinity` come back as `null`. A throwing `setItem` (src/store/index.js:27), for example on a full quota or disabled storage, is not caught. It leaves the list toggled and storage stale, and this is not modelled.
- `src/router/index.js`: a static route table passed to `vue-router`. Path matching, parameter extraction, history and scroll reset all happen inside that library, which is not part of this model.
- Reading and writing `localStorage`, `JSON.parse` and `JSON.stringify` (src/store/index.js:14, 27) are browser I/O. The write is the ghost field `persisted`. The read is the constructor's parameter, already parsed.
- Malformed stored text: `JSON.parse` throws on it, so creating the store fails. It does not fall back to an empty list; only a missing key (parsed as `null`) gives `[]` through `|| []`. The model follows the code and does not model the throw. Stored JSON values that parse to something other than an array are not modelled either.
- The namespaced modules `products`, `categories` and `cart` (src/store/index.js:2-4, 7-11) are not part of this model.
- Vuex's `createStore` wiring and reactivity: the mutations are plain methods on the store object.
- JavaScript equality corner cases: `indexOf` uses strict equality and `includes` uses SameValueZero, which differ only on NaN. Ids here use Dafny's equality, so the two lookups always agree.
