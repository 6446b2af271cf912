/**
 * The sort engine, `sortProducts`: it copies the products and sorts the copy
 * with a two-key comparator. `Sort` is the specification (a stable insertion
 * sort); `SortProducts` is the copy-then-sort-in-place procedure, proved to
 * compute it; the lemmas show the result is an ordered, stable permutation of
 * the input and that no other stable sort could give a different answer.
 */
module SortEngine {
  import opened Strings
  import opened Products

  /** `SortOption`. */
  datatype SortOption = Alphabetical | Count

  /**
   * The comparator handed to `sorted.sort`: negative when `a` goes first,
   * positive when `b` does, zero for a tie.
   */
  function Compare(a: Product, b: Product, sortBy: SortOption): int {
    match sortBy
    case Alphabetical =>
      var nameCompare := NameCompare(a.name, b.name);
      if nameCompare != 0 then nameCompare else a.count - b.count
    case Count =>
      if a.count != b.count then a.count - b.count else NameCompare(a.name, b.name)
  }

  /** Two products tie under either comparator: same name and same count. */
  predicate SameKey(a: Product, b: Product) {
    a.name == b.name && a.count == b.count
  }

  /** The comparator ties exactly the products with the same name and count. */
  lemma CompareZeroIffSameKey(a: Product, b: Product, sortBy: SortOption)
    ensures Compare(a, b, sortBy) == 0 <==> SameKey(a, b)
  {
    NameCompareZeroIffEqual(a.name, b.name);
  }

  /** The comparator is consistent: swapping the arguments flips the sign. */
  lemma CompareAntisymmetric(a: Product, b: Product, sortBy: SortOption)
    ensures Compare(a, b, sortBy) < 0 <==> Compare(b, a, sortBy) > 0
    ensures Compare(a, b, sortBy) == 0 <==> Compare(b, a, sortBy) == 0
  {
    NameCompareAntisymmetric(a.name, b.name);
  }

  /** "Not after" under the comparator is transitive. */
  lemma CompareTransitive(a: Product, b: Product, c: Product, sortBy: SortOption)
    requires Compare(a, b, sortBy) <= 0 && Compare(b, c, sortBy) <= 0
    ensures Compare(a, c, sortBy) <= 0
  {
    NameCompareZeroIffEqual(a.name, b.name);
    NameCompareZeroIffEqual(b.name, c.name);
    NameCompareZeroIffEqual(a.name, c.name);
    NameCompareAntisymmetric(a.name, b.name);
    if NameCompare(a.name, b.name) <= 0 && NameCompare(b.name, c.name) <= 0 {
      NameCompareTransitive(a.name, b.name, c.name);
    }
  }

  /** Every product of `xs` is in comparator order with every later one. */
  predicate Ordered(xs: seq<Product>, sortBy: SortOption) {
    forall i, j :: 0 <= i < j < |xs| ==> Compare(xs[i], xs[j], sortBy) <= 0
  }

  lemma OrderedInit(xs: seq<Product>, sortBy: SortOption)
    requires Ordered(xs, sortBy) && xs != []
    ensures Ordered(xs[..|xs| - 1], sortBy)
  {
    var init := xs[..|xs| - 1];
    forall i, j | 0 <= i < j < |init| ensures Compare(init[i], init[j], sortBy) <= 0 {
      assert init[i] == xs[i] && init[j] == xs[j];
    }
  }

  lemma OrderedTail(xs: seq<Product>, sortBy: SortOption)
    requires Ordered(xs, sortBy) && xs != []
    ensures Ordered(xs[1..], sortBy)
  {
    var tail := xs[1..];
    forall i, j | 0 <= i < j < |tail| ensures Compare(tail[i], tail[j], sortBy) <= 0 {
      assert tail[i] == xs[i + 1] && tail[j] == xs[j + 1];
    }
  }

  /**
   * Inserts `x` behind every product of `s` that does not compare after it,
   * scanning from the back as an in-place insertion step does.
   */
  function Insert(s: seq<Product>, x: Product, sortBy: SortOption): (r: seq<Product>)
    ensures |r| == |s| + 1
    decreases |s|
  {
    if s == [] || Compare(s[|s| - 1], x, sortBy) <= 0 then s + [x]
    else
      var init, last := s[..|s| - 1], s[|s| - 1];
      assert s == init + [last];
      Insert(init, x, sortBy) + [last]
  }

  /** `sortProducts(xs, sortBy)`: a stable insertion sort of `xs` under the comparator. */
  function Sort(xs: seq<Product>, sortBy: SortOption): (r: seq<Product>)
    ensures |r| == |xs|
  {
    if xs == [] then []
    else
      var init, last := xs[..|xs| - 1], xs[|xs| - 1];
      assert xs == init + [last];
      Insert(Sort(init, sortBy), last, sortBy)
  }

  lemma {:induction false} InsertPermutes(s: seq<Product>, x: Product, sortBy: SortOption)
    ensures multiset(Insert(s, x, sortBy)) == multiset(s) + multiset{x}
    decreases |s|
  {
    if s != [] && Compare(s[|s| - 1], x, sortBy) > 0 {
      var init, last := s[..|s| - 1], s[|s| - 1];
      InsertPermutes(init, x, sortBy);
      assert s == init + [last];
    }
  }

  /** The result is a permutation of the input: nothing added, nothing lost. */
  lemma {:induction false} SortPermutes(xs: seq<Product>, sortBy: SortOption)
    ensures multiset(Sort(xs, sortBy)) == multiset(xs)
  {
    if xs != [] {
      var init, last := xs[..|xs| - 1], xs[|xs| - 1];
      SortPermutes(init, sortBy);
      InsertPermutes(Sort(init, sortBy), last, sortBy);
      assert xs == init + [last];
    }
  }

  /** Appending a product that no earlier one compares after keeps comparator order. */
  lemma OrderedSnoc(r: seq<Product>, y: Product, sortBy: SortOption)
    requires Ordered(r, sortBy)
    requires forall i :: 0 <= i < |r| ==> Compare(r[i], y, sortBy) <= 0
    ensures Ordered(r + [y], sortBy)
  {
    var res := r + [y];
    forall i, j | 0 <= i < j < |res| ensures Compare(res[i], res[j], sortBy) <= 0 {
      assert res[i] == r[i];
      if j < |r| {
        assert res[j] == r[j];
      }
    }
  }

  /** Every product of the insertion result is bounded by `last` when `x` and all of `s` are. */
  lemma InsertBounded(s: seq<Product>, x: Product, last: Product, sortBy: SortOption)
    requires forall k :: 0 <= k < |s| ==> Compare(s[k], last, sortBy) <= 0
    requires Compare(x, last, sortBy) <= 0
    ensures forall i :: 0 <= i < |Insert(s, x, sortBy)| ==> Compare(Insert(s, x, sortBy)[i], last, sortBy) <= 0
  {
    var r := Insert(s, x, sortBy);
    InsertPermutes(s, x, sortBy);
    forall i | 0 <= i < |r| ensures Compare(r[i], last, sortBy) <= 0 {
      assert r[i] in multiset(r);
      if r[i] != x {
        assert r[i] in multiset(s);
        var k :| 0 <= k < |s| && s[k] == r[i];
      }
    }
  }

  lemma {:induction false} InsertOrdered(s: seq<Product>, x: Product, sortBy: SortOption)
    requires Ordered(s, sortBy)
    ensures Ordered(Insert(s, x, sortBy), sortBy)
    decreases |s|
  {
    if s == [] {
    } else if Compare(s[|s| - 1], x, sortBy) <= 0 {
      forall i | 0 <= i < |s| ensures Compare(s[i], x, sortBy) <= 0 {
        if i < |s| - 1 {
          CompareTransitive(s[i], s[|s| - 1], x, sortBy);
        }
      }
      OrderedSnoc(s, x, sortBy);
    } else {
      var init, last := s[..|s| - 1], s[|s| - 1];
      OrderedInit(s, sortBy);
      InsertOrdered(init, x, sortBy);
      CompareAntisymmetric(last, x, sortBy);
      forall k | 0 <= k < |init| ensures Compare(init[k], last, sortBy) <= 0 {
        assert init[k] == s[k];
      }
      var r := Insert(init, x, sortBy);
      InsertBounded(init, x, last, sortBy);
      OrderedSnoc(r, last, sortBy);
    }
  }

  /** With `"alphabetical"` or `"count"` alike, the result is in comparator order. */
  lemma {:induction false} SortOrdered(xs: seq<Product>, sortBy: SortOption)
    ensures Ordered(Sort(xs, sortBy), sortBy)
  {
    if xs != [] {
      SortOrdered(xs[..|xs| - 1], sortBy);
      InsertOrdered(Sort(xs[..|xs| - 1], sortBy), xs[|xs| - 1], sortBy);
    }
  }

  /** `"alphabetical"`: adjacent products are in name order, and in ascending count when the names tie. */
  lemma AlphabeticalOrder(xs: seq<Product>, i: int)
    requires 0 <= i < |xs| - 1
    ensures var r := Sort(xs, Alphabetical);
      && NameCompare(r[i].name, r[i + 1].name) <= 0
      && (r[i].name == r[i + 1].name ==> r[i].count <= r[i + 1].count)
  {
    SortOrdered(xs, Alphabetical);
    var r := Sort(xs, Alphabetical);
    NameCompareZeroIffEqual(r[i].name, r[i + 1].name);
  }

  /** `"count"`: adjacent products are in ascending count, and in name order when the counts tie. */
  lemma CountOrder(xs: seq<Product>, i: int)
    requires 0 <= i < |xs| - 1
    ensures var r := Sort(xs, Count);
      && r[i].count <= r[i + 1].count
      && (r[i].count == r[i + 1].count ==> NameCompare(r[i].name, r[i + 1].name) <= 0)
  {
    SortOrdered(xs, Count);
  }

  /**
   * Tie-break determinism: sorted by `"count"`, any two products with equal
   * counts, wherever they stand, appear in name order.
   */
  lemma CountTieBreak(xs: seq<Product>, i: int, j: int)
    requires 0 <= i < j < |xs|
    ensures var r := Sort(xs, Count);
      r[i].count == r[j].count ==> NameCompare(r[i].name, r[j].name) <= 0
  {
    SortOrdered(xs, Count);
  }

  /** Inserting a product that no earlier one compares after appends it. */
  lemma InsertAfterLast(s: seq<Product>, x: Product, sortBy: SortOption)
    requires s == [] || Compare(s[|s| - 1], x, sortBy) <= 0
    ensures Insert(s, x, sortBy) == s + [x]
  {
  }

  /** A product that no earlier one compares after stays last when the sorted prefix is unchanged. */
  lemma SortKeepsLast(xs: seq<Product>, sortBy: SortOption)
    requires xs != []
    requires Sort(xs[..|xs| - 1], sortBy) == xs[..|xs| - 1]
    requires |xs| == 1 || Compare(xs[|xs| - 2], xs[|xs| - 1], sortBy) <= 0
    ensures Sort(xs, sortBy) == xs
  {
    var init, last := xs[..|xs| - 1], xs[|xs| - 1];
    if init != [] {
      assert init[|init| - 1] == xs[|xs| - 2];
    }
    calc {
      Sort(xs, sortBy);
      Insert(Sort(init, sortBy), last, sortBy);
      Insert(init, last, sortBy);
      { InsertAfterLast(init, last, sortBy); }
      init + [last];
      xs;
    }
  }

  /** Sorting an already ordered sequence leaves it as it is. */
  lemma {:induction false} SortOfOrdered(xs: seq<Product>, sortBy: SortOption)
    requires Ordered(xs, sortBy)
    ensures Sort(xs, sortBy) == xs
  {
    if xs != [] {
      OrderedInit(xs, sortBy);
      SortOfOrdered(xs[..|xs| - 1], sortBy);
      if |xs| > 1 {
        assert Compare(xs[|xs| - 2], xs[|xs| - 1], sortBy) <= 0;
      }
      SortKeepsLast(xs, sortBy);
    }
  }

  /** Sorting twice by the same key gives the same result as sorting once. */
  lemma SortIdempotent(xs: seq<Product>, sortBy: SortOption)
    ensures Sort(Sort(xs, sortBy), sortBy) == Sort(xs, sortBy)
  {
    SortOrdered(xs, sortBy);
    SortOfOrdered(Sort(xs, sortBy), sortBy);
  }

  /** The products of `xs` that tie with `q`, in their order in `xs`. */
  function Ties(xs: seq<Product>, q: Product): seq<Product>
  {
    if xs == [] then []
    else (if SameKey(xs[0], q) then [xs[0]] else []) + Ties(xs[1..], q)
  }

  lemma {:induction false} TiesAppend(a: seq<Product>, b: seq<Product>, q: Product)
    ensures Ties(a + b, q) == Ties(a, q) + Ties(b, q)
  {
    if a == [] {
      assert a + b == b;
    } else {
      var ab, head := a + b, if SameKey(a[0], q) then [a[0]] else [];
      assert ab[0] == a[0] && ab[1..] == a[1..] + b;
      TiesAppend(a[1..], b, q);
      calc {
        Ties(ab, q);
        head + Ties(a[1..] + b, q);
        head + (Ties(a[1..], q) + Ties(b, q));
        (head + Ties(a[1..], q)) + Ties(b, q);
      }
    }
  }

  lemma {:induction false} TiesMembers(xs: seq<Product>, q: Product, p: Product)
    ensures p in Ties(xs, q) <==> p in xs && SameKey(p, q)
  {
    if xs != [] {
      TiesMembers(xs[1..], q, p);
      assert xs == [xs[0]] + xs[1..];
    }
  }

  lemma InsertStable(s: seq<Product>, x: Product, sortBy: SortOption, q: Product)
    ensures Ties(Insert(s, x, sortBy), q) == Ties(s, q) + Ties([x], q)
    decreases |s|
  {
    if s == [] || Compare(s[|s| - 1], x, sortBy) <= 0 {
      TiesAppend(s, [x], q);
    } else {
      var init, last := s[..|s| - 1], s[|s| - 1];
      InsertStable(init, x, sortBy, q);
      TiesAppend(Insert(init, x, sortBy), [last], q);
      TiesAppend(init, [last], q);
      assert s == init + [last];
      CompareZeroIffSameKey(last, x, sortBy);
    }
  }

  /**
   * Stability: the products that tie with any `q` keep their relative order,
   * as `Array.prototype.sort` guarantees.
   */
  lemma {:induction false} SortStable(xs: seq<Product>, sortBy: SortOption, q: Product)
    ensures Ties(Sort(xs, sortBy), q) == Ties(xs, q)
  {
    if xs != [] {
      var init := xs[..|xs| - 1];
      SortStable(init, sortBy, q);
      InsertStable(Sort(init, sortBy), xs[|xs| - 1], sortBy, q);
      TiesAppend(init, [xs[|xs| - 1]], q);
      assert xs == init + [xs[|xs| - 1]];
    }
  }

  /** Two ordered sequences with the same ties start with the same product. */
  lemma SameTiesSameHead(ys: seq<Product>, zs: seq<Product>, sortBy: SortOption)
    requires Ordered(ys, sortBy) && Ordered(zs, sortBy) && ys != [] && zs != []
    requires Ties(ys, ys[0]) == Ties(zs, ys[0]) && Ties(ys, zs[0]) == Ties(zs, zs[0])
    ensures ys[0] == zs[0]
  {
    var y, z := ys[0], zs[0];
    TiesMembers(zs, z, z);
    TiesMembers(ys, z, z);
    var i :| 0 <= i < |ys| && ys[i] == z;
    if i != 0 { assert Compare(ys[0], ys[i], sortBy) <= 0; } else { CompareZeroIffSameKey(y, y, sortBy); }
    TiesMembers(ys, y, y);
    TiesMembers(zs, y, y);
    var j :| 0 <= j < |zs| && zs[j] == y;
    if j != 0 { assert Compare(zs[0], zs[j], sortBy) <= 0; } else { CompareZeroIffSameKey(z, z, sortBy); }
    CompareAntisymmetric(y, z, sortBy);
    CompareZeroIffSameKey(y, z, sortBy);
    assert Ties(ys, y)[0] == y && Ties(zs, y)[0] == z;
  }

  /** Dropping a common first product leaves the ties of the rest equal. */
  lemma SameTiesTail(ys: seq<Product>, zs: seq<Product>, q: Product)
    requires ys != [] && zs != [] && ys[0] == zs[0] && Ties(ys, q) == Ties(zs, q)
    ensures Ties(ys[1..], q) == Ties(zs[1..], q)
  {
    var head := if SameKey(ys[0], q) then [ys[0]] else [];
    assert Ties(ys, q) == head + Ties(ys[1..], q);
    assert Ties(zs, q) == head + Ties(zs[1..], q);
    assert Ties(ys[1..], q) == Ties(ys, q)[|head|..];
    assert Ties(zs[1..], q) == Ties(zs, q)[|head|..];
  }

  /** Two ordered sequences holding the same ties in the same order are equal. */
  lemma {:induction false} OrderedTiesDetermine(ys: seq<Product>, zs: seq<Product>, sortBy: SortOption)
    requires Ordered(ys, sortBy) && Ordered(zs, sortBy)
    requires forall q :: Ties(ys, q) == Ties(zs, q)
    ensures ys == zs
    decreases |ys|
  {
    if ys == [] || zs == [] {
      var w := if ys == [] then zs else ys;
      if w != [] {
        TiesMembers(w, w[0], w[0]);
        assert false;
      }
    } else {
      assert Ties(ys, ys[0]) == Ties(zs, ys[0]) && Ties(ys, zs[0]) == Ties(zs, zs[0]);
      SameTiesSameHead(ys, zs, sortBy);
      forall q ensures Ties(ys[1..], q) == Ties(zs[1..], q) {
        SameTiesTail(ys, zs, q);
      }
      OrderedTail(ys, sortBy);
      OrderedTail(zs, sortBy);
      OrderedTiesDetermine(ys[1..], zs[1..], sortBy);
      assert ys == [ys[0]] + ys[1..] && zs == [zs[0]] + zs[1..];
    }
  }

  /**
   * Determinism: any ordering of the input that is in comparator order and
   * keeps ties in input order (any stable sort) is exactly `Sort`.
   */
  lemma SortUnique(xs: seq<Product>, ys: seq<Product>, sortBy: SortOption)
    requires Ordered(ys, sortBy)
    requires forall q :: Ties(ys, q) == Ties(xs, q)
    ensures ys == Sort(xs, sortBy)
  {
    SortOrdered(xs, sortBy);
    forall q ensures Ties(ys, q) == Ties(Sort(xs, sortBy), q) {
      SortStable(xs, sortBy, q);
    }
    OrderedTiesDetermine(ys, Sort(xs, sortBy), sortBy);
  }

  /**
   * `sortProducts(products, sortBy)`: copies the products into a fresh array
   * (`[...products]`) and sorts the copy in place, moving each product back
   * past the products that compare after it; the input is never touched.
   */
  method SortProducts(products: seq<Product>, sortBy: SortOption) returns (sorted: seq<Product>)
    ensures sorted == Sort(products, sortBy)
  {
    var a := new Product[|products|](k requires 0 <= k < |products| => products[k]);
    var i := 0;
    while i < a.Length
      invariant 0 <= i <= a.Length
      invariant a[..i] == Sort(products[..i], sortBy)
      invariant a[i..] == products[i..]
    {
      ghost var done, rest := a[..i], products[i + 1..];
      assert done == Sort(products[..i], sortBy);
      assert a[i] == products[i] && a[i + 1..] == rest by {
        assert a[i..][0] == products[i..][0] && a[i + 1..] == a[i..][1..];
      }
      InsertBack(a, i, sortBy);
      assert a[..i + 1] == Insert(done, products[i], sortBy);
      SortPrefixStep(products, i, sortBy);
      i := i + 1;
    }
    assert products[..a.Length] == products;
    sorted := a[..];
  }

  /**
   * One pass of the in-place sort: `a[i]` moves left past every product of
   * the prefix `a[..i]` that compares after it; the rest of `a` stays put.
   */
  method InsertBack(a: array<Product>, i: int, sortBy: SortOption)
    requires 0 <= i < a.Length
    modifies a
    ensures a[..i + 1] == Insert(old(a[..i]), old(a[i]), sortBy)
    ensures a[i + 1..] == old(a[i + 1..])
  {
    var x := a[i];
    ghost var done := a[..i];
    var j := ShiftPast(a, i, x, sortBy);
    a[j] := x;
    InsertAt(done, j, x, sortBy);
    Placed(a[..i + 1], done, j, x);
    assert a[i + 1..] == old(a[i + 1..]);
  }

  /**
   * The shifting loop of a pass: moves each product of `a[..i]` that compares
   * after `x` one slot right, and returns the slot left free for `x`.
   */
  method ShiftPast(a: array<Product>, i: int, x: Product, sortBy: SortOption) returns (j: int)
    requires 0 <= i < a.Length
    modifies a
    ensures 0 <= j <= i
    ensures forall k :: 0 <= k < j ==> a[k] == old(a[k])
    ensures forall k :: j < k <= i ==> a[k] == old(a[k - 1])
    ensures forall k :: i < k < a.Length ==> a[k] == old(a[k])
    ensures forall k :: j <= k < i ==> Compare(old(a[k]), x, sortBy) > 0
    ensures j == 0 || Compare(old(a[j - 1]), x, sortBy) <= 0
  {
    j := i;
    while j > 0 && Compare(a[j - 1], x, sortBy) > 0
      invariant 0 <= j <= i
      invariant forall k :: 0 <= k < j ==> a[k] == old(a[k])
      invariant forall k :: j < k <= i ==> a[k] == old(a[k - 1])
      invariant forall k :: i < k < a.Length ==> a[k] == old(a[k])
      invariant forall k :: j <= k < i ==> Compare(old(a[k]), x, sortBy) > 0
    {
      a[j] := a[j - 1];
      j := j - 1;
    }
  }

  /** The array prefix after a pass holds `done` with `x` slotted in at `j`. */
  lemma Placed(s: seq<Product>, done: seq<Product>, j: int, x: Product)
    requires 0 <= j < |s| && |s| == |done| + 1
    requires forall k :: 0 <= k < j ==> s[k] == done[k]
    requires s[j] == x
    requires forall k :: j < k < |s| ==> s[k] == done[k - 1]
    ensures s == done[..j] + [x] + done[j..]
  {
  }

  lemma SortPrefixStep(xs: seq<Product>, i: int, sortBy: SortOption)
    requires 0 <= i < |xs|
    ensures Sort(xs[..i + 1], sortBy) == Insert(Sort(xs[..i], sortBy), xs[i], sortBy)
  {
    var ys := xs[..i + 1];
    assert ys[..|ys| - 1] == xs[..i] && ys[|ys| - 1] == xs[i];
  }

  /**
   * Where the insertion pass stops: behind the products of `done` up to `j`
   * and in front of the rest, all of which compare after `x`.
   */
  lemma {:induction false} InsertAt(done: seq<Product>, j: int, x: Product, sortBy: SortOption)
    requires 0 <= j <= |done|
    requires j == 0 || Compare(done[j - 1], x, sortBy) <= 0
    requires forall k :: j <= k < |done| ==> Compare(done[k], x, sortBy) > 0
    ensures Insert(done, x, sortBy) == done[..j] + [x] + done[j..]
    decreases |done|
  {
    if j == |done| {
      assert done[..j] == done && done[j..] == [];
    } else {
      var init, last := done[..|done| - 1], done[|done| - 1];
      assert Compare(last, x, sortBy) > 0;
      assert Insert(done, x, sortBy) == Insert(init, x, sortBy) + [last];
      assert init[..j] == done[..j];
      assert j == 0 || init[j - 1] == done[j - 1];
      forall k | j <= k < |init| ensures Compare(init[k], x, sortBy) > 0 {
        assert init[k] == done[k];
      }
      InsertAt(init, j, x, sortBy);
      assert done[j..] == init[j..] + [last];
    }
  }
}
