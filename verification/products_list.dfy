/**
 * The `ProductsList` component's state and its handlers: the product
 * collection, the pending delete candidate (`showDeleteModal`), adding a
 * product from the form's draft, the two-step delete, and the sorted view.
 */
module ProductsListState {
  import opened Wrappers
  import opened Products
  import opened SortEngine

  /** `products.filter((p) => p.id !== id)`: the products whose id is not `id`, in their order. */
  function RemoveId(xs: seq<Product>, id: int): (r: seq<Product>)
    ensures |r| <= |xs|
  {
    if xs == [] then []
    else (if xs[0].id != id then [xs[0]] else []) + RemoveId(xs[1..], id)
  }

  /** The survivors are exactly the products of `xs` whose id is not `id`. */
  lemma {:induction false} RemoveIdMembers(xs: seq<Product>, id: int, p: Product)
    ensures p in RemoveId(xs, id) <==> p in xs && p.id != id
  {
    if xs != [] {
      RemoveIdMembers(xs[1..], id, p);
      assert xs == [xs[0]] + xs[1..];
    }
  }

  /** Filtering distributes over concatenation, so the survivors keep their relative order. */
  lemma {:induction false} RemoveIdAppend(a: seq<Product>, b: seq<Product>, id: int)
    ensures RemoveId(a + b, id) == RemoveId(a, id) + RemoveId(b, id)
  {
    if a == [] {
      assert a + b == b;
    } else {
      var ab, head := a + b, if a[0].id != id then [a[0]] else [];
      assert ab[0] == a[0] && ab[1..] == a[1..] + b;
      RemoveIdAppend(a[1..], b, id);
      calc {
        RemoveId(ab, id);
        head + RemoveId(a[1..] + b, id);
        head + (RemoveId(a[1..], id) + RemoveId(b, id));
        (head + RemoveId(a[1..], id)) + RemoveId(b, id);
      }
    }
  }

  /** Deleting an id that no product has leaves the collection as it is. */
  lemma {:induction false} RemoveIdAbsent(xs: seq<Product>, id: int)
    requires !HasId(xs, id)
    ensures RemoveId(xs, id) == xs
  {
    if xs != [] {
      assert !HasId(xs[1..], id) by {
        forall i | 0 <= i < |xs[1..]| ensures xs[1..][i].id != id {
          assert xs[1..][i] == xs[i + 1];
        }
      }
      RemoveIdAbsent(xs[1..], id);
      assert xs == [xs[0]] + xs[1..];
    }
  }

  /**
   * With distinct ids, deleting the id of the product at `k` removes exactly
   * that product and keeps the others in order.
   */
  lemma RemoveIdExact(xs: seq<Product>, k: int)
    requires UniqueIds(xs) && 0 <= k < |xs|
    ensures RemoveId(xs, xs[k].id) == xs[..k] + xs[k + 1..]
  {
    var pre, x, post := xs[..k], xs[k], xs[k + 1..];
    assert xs == pre + [x] + post;
    OthersLackId(xs, k);
    RemoveIdSingle(pre, x, post);
  }

  /** Deleting the id of `x` from `pre + [x] + post`, where no other product has it, drops just `x`. */
  lemma RemoveIdSingle(pre: seq<Product>, x: Product, post: seq<Product>)
    requires !HasId(pre, x.id) && !HasId(post, x.id)
    ensures RemoveId(pre + [x] + post, x.id) == pre + post
  {
    var id, front := x.id, pre + [x];
    RemoveIdAbsent(pre, id);
    RemoveIdAbsent(post, id);
    assert RemoveId([x], id) == [];
    RemoveIdAppend(pre, [x], id);
    assert RemoveId(front, id) == pre;
    RemoveIdAppend(front, post, id);
  }

  /** With distinct ids, no product before or after `k` carries the id of the one at `k`. */
  lemma OthersLackId(xs: seq<Product>, k: int)
    requires UniqueIds(xs) && 0 <= k < |xs|
    ensures !HasId(xs[..k], xs[k].id) && !HasId(xs[k + 1..], xs[k].id)
  {
    var pre, post := xs[..k], xs[k + 1..];
    forall i | 0 <= i < |pre| ensures pre[i].id != xs[k].id {
      assert pre[i] == xs[i];
    }
    forall i | 0 <= i < |post| ensures post[i].id != xs[k].id {
      assert post[i] == xs[k + 1 + i];
    }
  }

  /** Deleting keeps the ids of the collection distinct. */
  lemma {:induction false} RemoveIdKeepsUniqueIds(xs: seq<Product>, id: int)
    requires UniqueIds(xs)
    ensures UniqueIds(RemoveId(xs, id))
  {
    if xs != [] {
      var tail := xs[1..];
      assert UniqueIds(tail) by {
        forall i, j | 0 <= i < j < |tail| ensures tail[i].id != tail[j].id {
          assert tail[i] == xs[i + 1] && tail[j] == xs[j + 1];
        }
      }
      RemoveIdKeepsUniqueIds(tail, id);
      var rest := RemoveId(tail, id);
      forall p | p in rest ensures p.id != xs[0].id {
        RemoveIdMembers(tail, id, p);
        var m :| 0 <= m < |tail| && tail[m] == p;
        assert tail[m] == xs[m + 1];
      }
      var head := if xs[0].id != id then [xs[0]] else [];
      var r := head + rest;
      forall i, j | 0 <= i < j < |r| ensures r[i].id != r[j].id {
        if head != [] && i == 0 {
          assert r[j] == rest[j - 1];
        } else {
          assert r[i] == rest[i - |head|] && r[j] == rest[j - |head|];
        }
      }
    }
  }

  /** Adding under an id no product has keeps the ids of the collection distinct. */
  lemma AddKeepsUniqueIds(xs: seq<Product>, d: Draft, now: int)
    requires UniqueIds(xs) && !HasId(xs, now)
    ensures UniqueIds(xs + [WithId(d, now)])
  {
    var r := xs + [WithId(d, now)];
    forall i, j | 0 <= i < j < |r| ensures r[i].id != r[j].id {
      assert r[i] == xs[i];
      if j < |xs| { assert r[j] == xs[j]; }
    }
  }

  /** The component's state that the handlers read and replace. */
  class ProductsList {
    /** The collection, in the order it was loaded and added to. */
    var products: seq<Product>
    /** The pending delete candidate: `null` (None) or the id awaiting confirmation. */
    var showDeleteModal: Option<int>

    /** `useState<Product[]>([])` and `useState<null | number>(null)`. */
    constructor ()
      ensures products == [] && showDeleteModal == None
    {
      products := [];
      showDeleteModal := None;
    }

    /** A successful fetch: the collection becomes the fetched one verbatim. */
    method ProductsLoaded(data: seq<Product>)
      modifies this
      ensures products == data
      ensures showDeleteModal == old(showDeleteModal)
    {
      products := data;
    }

    /**
     * `handleConfirmAdd`: a draft failing the guard changes nothing; an
     * acceptable one, stamped with the id `now`, is appended at the end.
     */
    method ConfirmAdd(draft: Draft, now: int)
      modifies this
      ensures !Acceptable(draft) ==> products == old(products)
      ensures Acceptable(draft) ==>
        && |products| == |old(products)| + 1
        && products[..|old(products)|] == old(products)
        && products[|old(products)|].id == now
        && DraftOf(products[|old(products)|]) == draft
      ensures old(UniqueIds(products)) && !old(HasId(products, now)) ==> UniqueIds(products)
      ensures showDeleteModal == old(showDeleteModal)
    {
      if !Acceptable(draft) {
        return;
      }
      var added := WithId(draft, now);
      if UniqueIds(products) && !HasId(products, now) {
        AddKeepsUniqueIds(products, draft, now);
      }
      WithIdRoundTrip(draft, now, added);
      products := products + [added];
    }

    /** `handleDeleteProduct`: records `id` as the candidate and deletes nothing yet. */
    method DeleteProduct(id: int)
      modifies this
      ensures showDeleteModal == Some(id)
      ensures products == old(products)
    {
      showDeleteModal := Some(id);
    }

    /**
     * `handleConfirmDelete`: with a candidate, drops every product carrying
     * its id (nothing if none does) and clears the candidate; without one,
     * changes nothing.
     */
    method ConfirmDelete()
      modifies this
      ensures old(showDeleteModal).None? ==> products == old(products)
      ensures old(showDeleteModal).Some? ==>
        products == RemoveId(old(products), old(showDeleteModal).value)
      ensures old(showDeleteModal).Some? && !old(HasId(products, showDeleteModal.value)) ==>
        products == old(products)
      ensures old(UniqueIds(products)) ==> UniqueIds(products)
      ensures showDeleteModal == None
    {
      if showDeleteModal.Some? {
        var id := showDeleteModal.value;
        if !HasId(products, id) {
          RemoveIdAbsent(products, id);
        }
        if UniqueIds(products) {
          RemoveIdKeepsUniqueIds(products, id);
        }
        products := RemoveId(products, id);
        showDeleteModal := None;
      }
    }

    /** `handleCancelDelete`: clears the candidate and deletes nothing. */
    method CancelDelete()
      modifies this
      ensures showDeleteModal == None
      ensures products == old(products)
    {
      showDeleteModal := None;
    }

    /** `sortedProducts`: the view the list renders, recomputed from the collection. */
    method SortedProducts(sortBy: SortOption) returns (view: seq<Product>)
      ensures view == Sort(products, sortBy)
    {
      view := SortProducts(products, sortBy);
    }
  }
}
