/**
 * The product list's data model: `Product`, its `Comment`s, the id-less
 * draft the add form edits, and the guard `handleConfirmAdd` applies to it.
 * JavaScript numbers are modelled as unbounded integers.
 */
module Products {
  import opened Strings

  datatype Size = Size(width: int, height: int)

  /** A comment carried along inside a product; its back-reference is `productId`. */
  datatype Comment = Comment(id: int, productId: int, description: string, date: string)

  datatype Product = Product(
    id: int,
    imageUrl: string,
    name: string,
    count: int,
    size: Size,
    weight: string,
    comments: seq<Comment>)

  /** `Omit<Product, "id">`: the add form's state before an id is stamped on it. */
  datatype Draft = Draft(
    imageUrl: string,
    name: string,
    count: int,
    size: Size,
    weight: string,
    comments: seq<Comment>)

  /** `{ ...draft, id }`: the product the draft becomes once it has an id. */
  function WithId(d: Draft, id: int): Product
  {
    Product(id, d.imageUrl, d.name, d.count, d.size, d.weight, d.comments)
  }

  /** Everything of a product except its id. */
  function DraftOf(p: Product): Draft
  {
    Draft(p.imageUrl, p.name, p.count, p.size, p.weight, p.comments)
  }

  /** Stamping an id keeps every other field, and stripping it gives the product back. */
  lemma WithIdRoundTrip(d: Draft, id: int, p: Product)
    ensures DraftOf(WithId(d, id)) == d && WithId(d, id).id == id
    ensures WithId(DraftOf(p), p.id) == p
  {
  }

  /** The form's initial state, `initialProductState`. */
  const InitialDraft := Draft("", "", 0, Size(0, 0), "", [])

  /**
   * The add guard: none of name, image reference and weight is blank after
   * trimming, and count, width and height are all positive.
   */
  predicate Acceptable(d: Draft) {
    && Trim(d.name) != []
    && Trim(d.imageUrl) != []
    && Trim(d.weight) != []
    && d.count > 0
    && d.size.width > 0
    && d.size.height > 0
  }

  /** The guard in terms of the fields themselves rather than of `trim`. */
  lemma AcceptableIff(d: Draft)
    ensures Acceptable(d) <==>
      && !AllWhiteSpace(d.name) && !AllWhiteSpace(d.imageUrl) && !AllWhiteSpace(d.weight)
      && d.count > 0 && d.size.width > 0 && d.size.height > 0
  {
    TrimEmptyIffBlank(d.name);
    TrimEmptyIffBlank(d.imageUrl);
    TrimEmptyIffBlank(d.weight);
  }

  /** Confirming the untouched form adds nothing. */
  lemma InitialDraftRejected()
    ensures !Acceptable(InitialDraft)
  {
  }

  /** A complete draft is accepted. */
  lemma FilledDraftAccepted()
    ensures Acceptable(Draft("a.png", "Pen", 5, Size(2, 3), "9g", []))
  {
    var d := Draft("a.png", "Pen", 5, Size(2, 3), "9g", []);
    AcceptableIff(d);
    assert !IsWhiteSpace(d.imageUrl[0]);
    assert !IsWhiteSpace(d.name[0]);
    assert !IsWhiteSpace(d.weight[0]);
  }

  /** The same draft with a name made of blanks only is rejected. */
  lemma BlankNameRejected()
    ensures !Acceptable(Draft("a.png", " \t", 5, Size(2, 3), "9g", []))
  {
    var d := Draft("a.png", " \t", 5, Size(2, 3), "9g", []);
    TrimEmptyIffBlank(d.name);
    assert AllWhiteSpace(d.name);
  }

  /** Every product in `xs` has an id of its own. */
  predicate UniqueIds(xs: seq<Product>) {
    forall i, j :: 0 <= i < j < |xs| ==> xs[i].id != xs[j].id
  }

  /** True when some product in `xs` has id `id`. */
  predicate HasId(xs: seq<Product>, id: int) {
    exists i :: 0 <= i < |xs| && xs[i].id == id
  }
}
