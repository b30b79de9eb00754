/**
 * The session cart: building an item from a product and the submitted form,
 * and resolving a cart against the catalog for display.
 */
module Cart {
  import opened Wrappers
  import opened Records
  import Catalog

  /** `req.body[f] || ''`: the submitted value when present and non-empty, else the empty string. */
  function Submitted(form: Form, name: string): (v: string)
    ensures v == (if name in form then form[name] else "")
  {
    if name in form && form[name] != "" then form[name] else ""
  }

  /** The fields map after the `forEach` loop has visited `names` in order. */
  function ItemFields(names: seq<string>, form: Form): (fields: map<string, string>)
    ensures forall f :: f in fields <==> f in names
    ensures forall f :: f in fields ==> fields[f] == (if f in form then form[f] else "")
  {
    if names == [] then map[]
    else
      var last := names[|names| - 1];
      ItemFields(names[..|names| - 1], form)[last := Submitted(form, last)]
  }

  /** The item `/cart/add/:id` appends for `product`. */
  function NewItem(product: Product, form: Form): (item: CartItem)
    ensures item.productId == product.id
    ensures forall f :: f in item.fields <==> f in product.customFields
    ensures forall f :: f in item.fields ==> item.fields[f] == (if f in form then form[f] else "")
  {
    CartItem(product.id, ItemFields(product.customFields, form))
  }

  /** Fills the fields map one declared custom field at a time; submitted
      fields the product does not declare are ignored. */
  method FillFields(names: seq<string>, form: Form) returns (fields: map<string, string>)
    ensures fields == ItemFields(names, form)
  {
    fields := map[];
    var i := 0;
    while i < |names|
      invariant 0 <= i <= |names|
      invariant fields == ItemFields(names[..i], form)
    {
      assert names[..i + 1][..i] == names[..i];
      fields := fields[names[i] := Submitted(form, names[i])];
      i := i + 1;
    }
    assert names[..i] == names;
  }

  /** `req.session.cart || []`: an absent cart reads as empty. */
  function Contents(cart: Option<seq<CartItem>>): (items: seq<CartItem>)
    ensures cart.Some? ==> items == cart.value
    ensures cart.None? ==> items == []
  {
    cart.GetOr([])
  }

  /** One displayed cart line: the product resolved live, possibly undefined. */
  datatype Line = Line(product: Option<Product>, fields: map<string, string>)

  /** The `/cart` view: each item mapped to its product (first match by id) and its fields. */
  function View(products: seq<Product>, items: seq<CartItem>): (lines: seq<Line>)
    ensures |lines| == |items|
    ensures forall k :: 0 <= k < |items| ==>
              lines[k] == Line(Catalog.FindProduct(products, items[k].productId), items[k].fields)
  {
    if items == [] then []
    else [Line(Catalog.FindProduct(products, items[0].productId), items[0].fields)]
         + View(products, items[1..])
  }

  /** Every item in `items` names a product the catalog has. */
  ghost predicate Resolves(products: seq<Product>, items: seq<CartItem>)
  {
    forall k :: 0 <= k < |items| ==> Catalog.FindProduct(products, items[k].productId).Some?
  }

  /** A cart whose items all resolve shows no undefined product. */
  lemma ResolvedViewHasProducts(products: seq<Product>, items: seq<CartItem>)
    requires Resolves(products, items)
    ensures forall k :: 0 <= k < |items| ==> View(products, items)[k].product.Some?
  {
  }

  /** Appending an item to any cart, stale items included, appends exactly
      one line to its view: the item's product as found now, and its fields. */
  lemma ViewAppend(products: seq<Product>, items: seq<CartItem>, item: CartItem)
    ensures View(products, items + [item])
            == View(products, items) + [Line(Catalog.FindProduct(products, item.productId), item.fields)]
  {
    var items' := items + [item];
    var lines, lines' := View(products, items), View(products, items');
    var line := Line(Catalog.FindProduct(products, item.productId), item.fields);
    assert |lines'| == |lines| + 1;
    forall k | 0 <= k < |lines'|
      ensures lines'[k] == (lines + [line])[k]
    {
      if k < |items| {
        assert items'[k] == items[k];
      } else {
        assert items'[k] == item;
      }
    }
  }

  /** Adding a product found in the catalog keeps the cart resolved, and the
      view gains that product with the new item's fields as its last line. */
  lemma AddKeepsResolved(products: seq<Product>, items: seq<CartItem>, id: string, form: Form)
    requires Resolves(products, items)
    requires Catalog.FindProduct(products, id).Some?
    ensures var p := Catalog.FindProduct(products, id).value;
            Resolves(products, items + [NewItem(p, form)])
            && View(products, items + [NewItem(p, form)])
               == View(products, items) + [Line(Some(p), NewItem(p, form).fields)]
  {
    var p := Catalog.FindProduct(products, id).value;
    var items' := items + [NewItem(p, form)];
    assert Catalog.FindProduct(products, NewItem(p, form).productId) == Some(p);
    ViewAppend(products, items, NewItem(p, form));
    assert forall k :: 0 <= k < |items| ==> items'[k] == items[k];
  }

  /** The catalog only grows by appending, and a cart that resolved keeps resolving. */
  lemma {:induction false} AppendKeepsResolved(products: seq<Product>, p: Product, items: seq<CartItem>)
    requires Resolves(products, items)
    ensures Resolves(products + [p], items)
    ensures View(products + [p], items) == View(products, items)
  {
    forall k | 0 <= k < |items|
      ensures Catalog.FindProduct(products + [p], items[k].productId)
              == Catalog.FindProduct(products, items[k].productId)
    {
      Catalog.FindProductAfterAppend(products, p, items[k].productId);
    }
  }
}
