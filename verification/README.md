# Product list: sort engine, add guard and two-step delete

This project models the product-collection core of the catalog's list view,
`app/components/ProductsList.tsx`. It covers three parts:

- **The sort engine, `sortProducts`.** It copies the products and sorts the copy with a two-key comparator:
  - `"alphabetical"` compares by name, and breaks ties by ascending count.
  - `"count"` compares by ascending count, and breaks ties by name.
- **The add handler, `handleConfirmAdd`.** It rejects a draft whose trimmed name, image URL or weight is empty. It also rejects a draft whose count, width or height is not positive. Otherwise it appends the draft, stamped with a fresh id, to the end of the collection.
- **The two-step delete.** `handleDeleteProduct` records a single pending candidate id (`showDeleteModal`). `handleCancelDelete` clears it. `handleConfirmDelete` filters out every product carrying that id and then clears the candidate.

Files and modules:

- `wrappers.dfy` (`Wrappers`): `Option`, the `null | number` of the delete candidate.
- `strings.dfy` (`Strings`): `String.prototype.trim`, and the name order that stands in for `localeCompare`.
- `products.dfy` (`Products`): `Product`, `Comment`, `Size`, the id-less `Draft`, the add guard `Acceptable`, and id predicates.
- `sort.dfy` (`SortEngine`): the comparator and `Sort`, the specification. `Sort` is a stable insertion sort. The module also holds the lemmas about `Sort` and the method `SortProducts`. That method copies the input into an array and sorts it in place. It is proved to compute `Sort`.
- `products_list.dfy` (`ProductsListState`): the order-preserving filter `RemoveId` with its lemmas. It also holds the class `ProductsList`, which has the fields `products` and `showDeleteModal` and one method per handler.

Some inputs come from outside the component, so they are parameters here:

- The clock value `Date.now()` is the parameter `now`.
- The add form's current state (`newProduct`) is the parameter `draft`.
- A successful fetch hands the fetched collection to `ProductsLoaded`.

`localeCompare` is replaced by lexicographic comparison by character code (`NameCompare`). It is a total order, and two names compare equal only when they are the same string. So the comparator ties exactly the products with the same name and count.

The sort uses `Array.prototype.sort`, which JavaScript requires to be stable. `SortUnique` proves that any stable sort produces exactly `Sort`'s result. So choosing insertion sort in the model does not change what the model says.

## Model

| member | source | states |
|---|---|---|
| Strings.IsWhiteSpace | app/components/ProductsList.tsx:81-83 | the characters `trim` removes (the WhiteSpace and LineTerminator sets of ECMAScript); no contract of its own, characterised through `Strings.TrimIsFactor` and `Strings.TrimEmptyIffBlank` |
| Strings.TrimStart | app/components/ProductsList.tsx:81-83 | the result is the suffix of the input after its longest white-space prefix and does not start with white space |
| Strings.TrimEnd | app/components/ProductsList.tsx:81-83 | the result is the prefix of the input before its longest white-space suffix and does not end with white space |
| Strings.Trim | app/components/ProductsList.tsx:81-83 | the trimmed string, when non-empty, starts and ends with a non-white-space character |
| Strings.TrimEmptyIffBlank | app/components/ProductsList.tsx:81-83 | `!s.trim()` holds exactly when every character of `s` is white space (both directions) |
| Strings.TrimIsFactor | app/components/ProductsList.tsx:81-83 | `s.trim()` is a contiguous piece of `s` with only white space cut from either end |
| Strings.NameCompare | app/components/ProductsList.tsx:32 | the stand-in for `localeCompare` returns -1, 0 or 1 |
| Strings.NameCompareZeroIffEqual | app/components/ProductsList.tsx:32-33 | two names compare 0 exactly when they are equal |
| Strings.NameCompareAntisymmetric | app/components/ProductsList.tsx:32 | swapping the names flips the sign of the comparison |
| Strings.NameCompareTransitive | app/components/ProductsList.tsx:32 | "not after" on names is transitive |
| Products.WithId | app/components/ProductsList.tsx:92 | `{ ...newProduct, id: Date.now() }`; no contract of its own, characterised by `Products.WithIdRoundTrip` |
| Products.InitialDraft | app/components/ProductsList.tsx:45-52 | `initialProductState`; no contract of its own, characterised by `Products.InitialDraftRejected` |
| Products.Acceptable | app/components/ProductsList.tsx:80-87 | the add guard of `handleConfirmAdd`; no contract of its own, characterised by `Products.AcceptableIff` |
| Products.WithIdRoundTrip | app/components/ProductsList.tsx:92 | `{ ...draft, id }` keeps every draft field and sets the id; stripping the id of a product and re-stamping it gives the product back |
| Products.AcceptableIff | app/components/ProductsList.tsx:80-89 | the add guard passes exactly when name, image URL and weight each hold a non-white-space character and count, width and height are positive |
| Products.InitialDraftRejected | app/components/ProductsList.tsx:45-52 | confirming the untouched initial form is rejected |
| Products.FilledDraftAccepted | app/components/ProductsList.tsx:80-89 | a complete draft (name "Pen", positive count and size) passes the guard |
| Products.BlankNameRejected | app/components/ProductsList.tsx:80-81 | the same draft with a name of only a space and a tab fails the guard |
| SortEngine.Compare | app/components/ProductsList.tsx:31-40 | the two comparator closures (lines 31-35 and 37-40); no contract of its own, characterised by `SortEngine.CompareZeroIffSameKey`, `SortEngine.CompareAntisymmetric` and `SortEngine.CompareTransitive` |
| SortEngine.CompareZeroIffSameKey | app/components/ProductsList.tsx:30-40 | under either key, the comparator returns 0 exactly for products with the same name and count |
| SortEngine.CompareAntisymmetric | app/components/ProductsList.tsx:30-40 | the comparator is consistent: a(b) < 0 iff b(a) > 0, and a(b) = 0 iff b(a) = 0 |
| SortEngine.CompareTransitive | app/components/ProductsList.tsx:30-40 | "not after" under either comparator is transitive |
| SortEngine.Insert | app/components/ProductsList.tsx:29-41 | an insertion step adds exactly one element |
| SortEngine.Sort | app/components/ProductsList.tsx:28-43 | the sorted copy has the input's length |
| SortEngine.InsertPermutes | app/components/ProductsList.tsx:29-41 | an insertion step adds exactly the inserted product to the multiset |
| SortEngine.SortPermutes | app/components/ProductsList.tsx:28-29 | the result is a permutation of the input: same multiset of products |
| SortEngine.InsertOrdered | app/components/ProductsList.tsx:30-40 | inserting into a sequence in comparator order keeps it in comparator order |
| SortEngine.SortOrdered | app/components/ProductsList.tsx:30-41 | for either key, every product of the result is in comparator order with every later one |
| SortEngine.AlphabeticalOrder | app/components/ProductsList.tsx:30-35 | with `"alphabetical"`, each adjacent pair is in name order, and in ascending count when the names are equal |
| SortEngine.CountOrder | app/components/ProductsList.tsx:36-40 | with `"count"`, each adjacent pair is in ascending count, and in name order when the counts are equal |
| SortEngine.CountTieBreak | app/components/ProductsList.tsx:36-40 | with `"count"`, any two products of equal count, however far apart, appear in name order |
| SortEngine.SortOfOrdered | app/components/ProductsList.tsx:28-43 | sorting a sequence already in comparator order returns it unchanged |
| SortEngine.SortIdempotent | app/components/ProductsList.tsx:28-43 | `sortProducts(sortProducts(xs, k), k) == sortProducts(xs, k)` for both keys |
| SortEngine.TiesMembers | app/components/ProductsList.tsx:30-40 | the ties of `q` in a sequence are exactly its products with `q`'s name and count |
| SortEngine.InsertStable | app/components/ProductsList.tsx:29-41 | an insertion step places the new product after every product it ties with |
| SortEngine.SortStable | app/components/ProductsList.tsx:29-41 | stability: products that tie keep their input order |
| SortEngine.OrderedTiesDetermine | app/components/ProductsList.tsx:30-40 | two sequences in comparator order with the same ties, in the same order, are equal |
| SortEngine.SortUnique | app/components/ProductsList.tsx:28-43 | determinism: any ordering of the input that is in comparator order and keeps ties in input order (any stable sort) is exactly `Sort` |
| SortEngine.SortProducts | app/components/ProductsList.tsx:28-43 | copying into a fresh array and sorting the copy in place returns `Sort(products, sortBy)`; the input sequence is a value and is untouched |
| SortEngine.InsertBack | app/components/ProductsList.tsx:29-41 | one in-place pass leaves the prefix equal to the insertion of `a[i]` into the old prefix and leaves the rest of the array as it was |
| SortEngine.ShiftPast | app/components/ProductsList.tsx:29-41 | the shifting loop moves right exactly the prefix products that compare after `x` and returns the free slot |
| SortEngine.InsertAt | app/components/ProductsList.tsx:29-41 | insertion puts `x` behind the products that do not compare after it and in front of those that do |
| ProductsListState.RemoveId | app/components/ProductsList.tsx:103 | the filter never lengthens the collection |
| ProductsListState.RemoveIdMembers | app/components/ProductsList.tsx:103 | a product survives the filter exactly when it was present and its id differs from the candidate |
| ProductsListState.RemoveIdAppend | app/components/ProductsList.tsx:103 | the filter distributes over concatenation, so survivors keep their relative order |
| ProductsListState.RemoveIdAbsent | app/components/ProductsList.tsx:103 | deleting an id no product has leaves the collection unchanged |
| ProductsListState.RemoveIdSingle | app/components/ProductsList.tsx:103 | when only `x` carries its id, deleting that id from `pre + [x] + post` gives `pre + post` |
| ProductsListState.RemoveIdExact | app/components/ProductsList.tsx:103 | with distinct ids, deleting the id of the product at `k` removes exactly that product and keeps the others in order |
| ProductsListState.RemoveIdKeepsUniqueIds | app/components/ProductsList.tsx:103 | deleting keeps the ids distinct |
| ProductsListState.AddKeepsUniqueIds | app/components/ProductsList.tsx:90-93 | appending under an id no product has keeps the ids distinct |
| ProductsListState.ProductsList.constructor | app/components/ProductsList.tsx:55-57 | the collection starts empty with no delete candidate |
| ProductsListState.ProductsList.ProductsLoaded | app/components/ProductsList.tsx:66-67 | a successful fetch replaces the collection verbatim and leaves the candidate alone |
| ProductsListState.ProductsList.ConfirmAdd | app/components/ProductsList.tsx:79-95 | a draft failing the guard leaves the collection unchanged. An accepted draft grows the collection by one, keeps every earlier entry in place, and ends with the draft's fields under id `now`. Distinct ids stay distinct when `now` is unused. The candidate is untouched |
| ProductsListState.ProductsList.DeleteProduct | app/components/ProductsList.tsx:97-99 | records the id as the only pending candidate and leaves the collection unchanged |
| ProductsListState.ProductsList.ConfirmDelete | app/components/ProductsList.tsx:101-106 | with no candidate, nothing changes. With candidate `c`, the collection becomes the order-preserving filter of entries whose id is not `c`: unchanged if no entry has `c`, still with distinct ids if it had them. The candidate is cleared |
| ProductsListState.ProductsList.CancelDelete | app/components/ProductsList.tsx:108 | clears the candidate and leaves the collection unchanged |
| ProductsListState.ProductsList.SortedProducts | app/components/ProductsList.tsx:135 | the rendered view is `Sort` of the current collection under the key `sortBy`; the component's `sortBy` state (line 58) is this parameter |

## Left out

- `localeCompare` collation is replaced by code-point lexicographic order. The order itself differs from a locale's: code-point order puts "Banana" before "apple", while an English collation puts "apple" first. So `SortEngine.AlphabeticalOrder`, `SortEngine.CountOrder` and `SortEngine.CountTieBreak` describe the stand-in's order, not the order the page renders. Real collation can also make distinct strings compare 0; under such a collation, ties would also cover products whose names differ.
- The fetch in `useEffect` (lines 61-73) is network I/O and is asynchronous. Only its success path is modelled, as `ProductsLoaded`. On failure the component only logs an error and changes no state, so there is nothing to model.
- `Date.now()` is a clock, so it is the parameter `now`. Nothing makes ids unique: id uniqueness is proved to be preserved only when `now` is unused, never assumed.
- `handleInputChange` (lines 110-133) is form wiring. Its `Number(value)` parsing can yield fractions or NaN. Count, width and height are modelled as unbounded integers, and the form's state is the `draft` parameter.
- `showAddModal`, `handleAddProduct` and all JSX (lines 56, 75-77, 94, 137-294) are presentational visibility state and markup.
- The `sortBy` state (line 58) and its select are not a field of `ProductsList`: the key is the parameter `sortBy` of `SortedProducts`, so the model does not capture which key the select last chose.
- `sortProducts` has a fall-through branch for a key that is neither option (line 36). It returns the unsorted copy. `SortOption` has exactly two values, so this branch cannot be reached and is not modelled.
- The comment thread and the product detail/edit view are in `app/[product]/page.tsx`, which is not part of this model. `Comment` is only carried inside `Product`; its misspelled back-reference field `pruductId` is named `productId` here.
- React's batched state updates are not modelled: each handler is one atomic update of the state.
- JavaScript strings are UTF-16 code units. Here they are sequences of Unicode scalar values, which matters only for the stand-in name order.
- The engine's own sort algorithm is not visible. `SortProducts` uses insertion sort instead, and `SortUnique` shows that every stable sort has the same result.
