/**
 * Catalog lookup by identifier: `products.find(p => p.id === id)`, a linear
 * scan that yields the first match.
 */
module Catalog {
  import opened Wrappers
  import opened Records

  /** Position of the first product whose id is `id`, if any. */
  function ProductIndex(products: seq<Product>, id: string): (r: Option<nat>)
    ensures r.None? <==> forall k :: 0 <= k < |products| ==> products[k].id != id
    ensures r.Some? ==> r.value < |products| && products[r.value].id == id
    ensures r.Some? ==> forall k :: 0 <= k < r.value ==> products[k].id != id
  {
    if products == [] then None
    else if products[0].id == id then Some(0)
    else match ProductIndex(products[1..], id)
      case None => None
      case Some(k) => Some(k + 1)
  }

  /** The first product whose id is `id`, or undefined. */
  function FindProduct(products: seq<Product>, id: string): (r: Option<Product>)
    ensures r.None? <==> forall k :: 0 <= k < |products| ==> products[k].id != id
    ensures r.Some? ==> r.value in products && r.value.id == id
    ensures r.Some? ==> exists k :: 0 <= k < |products| && products[k] == r.value
                                  && forall j :: 0 <= j < k ==> products[j].id != id
  {
    match ProductIndex(products, id)
    case None => None
    case Some(k) => Some(products[k])
  }

  /** Appending a product never changes what an earlier lookup found; a lookup
      that found nothing now finds the new product exactly when its id matches. */
  lemma {:induction false} FindProductAfterAppend(products: seq<Product>, p: Product, id: string)
    ensures FindProduct(products, id).Some? ==>
              FindProduct(products + [p], id) == FindProduct(products, id)
    ensures FindProduct(products, id).None? ==>
              FindProduct(products + [p], id) == (if p.id == id then Some(p) else None)
  {
    if products != [] {
      assert (products + [p])[1..] == products[1..] + [p];
      FindProductAfterAppend(products[1..], p, id);
    }
  }
}
