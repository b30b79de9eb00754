/**
 * The records the storefront keeps: products in the catalog, items in a
 * session cart, and orders. Form bodies are maps from field name to the
 * submitted string.
 */
module Records {
  import opened Wrappers

  /** A url-encoded request body: field name to submitted value. */
  type Form = map<string, string>

  /** A catalog entry. Title, description and price are copied from the
      admin form unvalidated, so any of them may be absent. */
  datatype Product = Product(
    id: string,
    title: Option<string>,
    description: Option<string>,
    price: Option<string>,
    customFields: seq<string>)

  /** A cart line: a reference to a product by id, plus the custom-field values. */
  datatype CartItem = CartItem(productId: string, fields: map<string, string>)

  /** A checked-out cart. The status is a free-form string, absent when the
      admin form that last set it had no `status` field. */
  datatype Order = Order(id: string, items: seq<CartItem>, status: Option<string>)

  /** Destructuring `req.body`: the submitted value, or undefined. */
  function FormValue(form: Form, name: string): (v: Option<string>)
    ensures v.Some? <==> name in form
    ensures v.Some? ==> v.value == form[name]
  {
    if name in form then Some(form[name]) else None
  }
}
