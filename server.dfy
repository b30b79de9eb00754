/**
 * The request handlers' state logic. A `Store` owns the process-wide product
 * and order lists together with the last snapshot written to each data file;
 * a `Session` holds the per-visitor cart and admin flag. Generated ids are
 * passed in by the caller.
 */
module Server {
  import opened Wrappers
  import opened Records
  import Catalog
  import Cart
  import CustomFields
  import Orders

  /** The one accepted login. */
  const AdminUsername: string := "admin"
  const AdminPassword: string := "password"

  /** The status every new order starts with. */
  const InitialStatus: string := "Pending"

  /** How a handler ends: success (a redirect or a rendered page), a 404, a
      redirect to the login page, the login form shown again with an error,
      or an exception escaping the handler. */
  datatype Outcome = Done | NotFound | LoginRequired | InvalidCredentials | Failed

  /** `ensureAdmin`: continue with the handler, or redirect to `/admin/login`. */
  datatype Gate = Proceed | RedirectToLogin

  function EnsureAdmin(admin: bool): (g: Gate)
    ensures g == Proceed <==> admin
    ensures g == RedirectToLogin <==> !admin
  {
    if admin then Proceed else RedirectToLogin
  }

  /** The login form carries exactly the hard-coded username and password. */
  predicate ValidCredentials(form: Form)
    ensures ValidCredentials(form) <==>
              && "username" in form && form["username"] == AdminUsername
              && "password" in form && form["password"] == AdminPassword
  {
    FormValue(form, "username") == Some(AdminUsername)
    && FormValue(form, "password") == Some(AdminPassword)
  }

  /** Per-visitor state; a fresh session has no cart and is not an admin. */
  class Session {
    var cart: Option<seq<CartItem>>
    var admin: bool

    constructor ()
      ensures cart == None && !admin
    {
      cart := None;
      admin := false;
    }
  }

  class Store {
    var products: seq<Product>
    var orders: seq<Order>
    /** What loading the products and orders data files would yield now. */
    ghost var productsFile: seq<Product>
    ghost var ordersFile: seq<Order>

    /** Every mutation is followed by a rewrite of the file it touched. */
    ghost predicate Synced()
      reads this
    {
      productsFile == products && ordersFile == orders
    }

    /** Start-up: the collections as read from the data files (empty when unreadable). */
    constructor (loadedProducts: seq<Product>, loadedOrders: seq<Order>)
      ensures Synced()
      ensures products == loadedProducts && orders == loadedOrders
    {
      products, orders := loadedProducts, loadedOrders;
      productsFile, ordersFile := loadedProducts, loadedOrders;
    }

    /** GET /product/:id: the first product with that id, or a 404 when there is none. */
    method ShowProduct(id: string) returns (found: Option<Product>)
      ensures found == Catalog.FindProduct(products, id)
      ensures found.None? <==> forall k :: 0 <= k < |products| ==> products[k].id != id
    {
      found := Catalog.FindProduct(products, id);
    }

    /** POST /cart/add/:id: append an item for the product to the session
        cart, creating the cart first when absent; 404 and no change when the
        id is unknown. The store itself is not changed. */
    method AddToCart(session: Session, id: string, form: Form) returns (outcome: Outcome)
      modifies session
      ensures session.admin == old(session.admin)
      ensures Catalog.FindProduct(products, id).None? ==>
                outcome == NotFound && session.cart == old(session.cart)
      ensures Catalog.FindProduct(products, id).Some? ==>
                && outcome == Done
                && session.cart == Some(Cart.Contents(old(session.cart))
                                        + [Cart.NewItem(Catalog.FindProduct(products, id).value, form)])
    {
      var product := Catalog.FindProduct(products, id);
      if product.None? {
        return NotFound;
      }
      if session.cart.None? {
        session.cart := Some([]);
      }
      var fields := Cart.FillFields(product.value.customFields, form);
      var item := CartItem(product.value.id, fields);
      session.cart := Some(session.cart.value + [item]);
      outcome := Done;
    }

    /** GET /cart: the session cart (empty when absent) resolved against the catalog. */
    method ViewCart(session: Session) returns (lines: seq<Cart.Line>)
      ensures lines == Cart.View(products, Cart.Contents(session.cart))
      ensures |lines| == |Cart.Contents(session.cart)|
    {
      lines := Cart.View(products, Cart.Contents(session.cart));
    }

    /** POST /checkout: append a Pending order holding the cart as it was
        (empty when absent), save the orders, and leave the session with an
        empty cart. */
    method Checkout(session: Session, newId: string) returns (order: Order)
      requires Synced()
      modifies this, session
      ensures Synced()
      ensures order == Order(newId, Cart.Contents(old(session.cart)), Some(InitialStatus))
      ensures orders == old(orders) + [order]
      ensures products == old(products)
      ensures session.cart == Some([]) && session.admin == old(session.admin)
    {
      var items := Cart.Contents(session.cart);
      order := Order(newId, items, Some(InitialStatus));
      orders := orders + [order];
      ordersFile := orders;
      session.cart := Some([]);
    }

    /** POST /admin/login: the right credentials set the admin flag; any
        others show the form again and leave the flag as it was. */
    method Login(session: Session, form: Form) returns (outcome: Outcome)
      modifies session
      ensures ValidCredentials(form) ==> outcome == Done && session.admin
      ensures !ValidCredentials(form) ==>
                outcome == InvalidCredentials && session.admin == old(session.admin)
      ensures session.cart == old(session.cart)
    {
      var username, password := FormValue(form, "username"), FormValue(form, "password");
      if username == Some(AdminUsername) && password == Some(AdminPassword) {
        session.admin := true;
        return Done;
      }
      outcome := InvalidCredentials;
    }

    /** POST /admin/products (admin only): append a product built from the
        form and save the products. A form without `customFields` makes
        `split` throw before anything is changed. */
    method CreateProduct(session: Session, newId: string, form: Form) returns (outcome: Outcome)
      requires Synced()
      modifies this
      ensures Synced()
      ensures orders == old(orders)
      ensures !session.admin ==> outcome == LoginRequired && products == old(products)
      ensures session.admin && "customFields" !in form ==>
                outcome == Failed && products == old(products)
      ensures session.admin && "customFields" in form ==>
                && outcome == Done
                && products == old(products) + [Product(newId,
                                                        FormValue(form, "title"),
                                                        FormValue(form, "description"),
                                                        FormValue(form, "price"),
                                                        CustomFields.ParseCustomFields(form["customFields"]))]
    {
      if EnsureAdmin(session.admin) == RedirectToLogin {
        return LoginRequired;
      }
      if "customFields" !in form {
        return Failed;
      }
      var names := CustomFields.ParseCustomFields(form["customFields"]);
      var product := Product(newId, FormValue(form, "title"), FormValue(form, "description"),
                             FormValue(form, "price"), names);
      products := products + [product];
      productsFile := products;
      outcome := Done;
    }

    /** POST /admin/orders/:id/status (admin only): overwrite the status of
        the first order with that id and save the orders; 404 and no change
        when there is none. */
    method SetOrderStatus(session: Session, id: string, form: Form) returns (outcome: Outcome)
      requires Synced()
      modifies this
      ensures Synced()
      ensures products == old(products)
      ensures !session.admin ==> outcome == LoginRequired && orders == old(orders)
      ensures session.admin ==>
                var updated := Orders.WithStatus(old(orders), id, FormValue(form, "status"));
                && (updated.None? ==> outcome == NotFound && orders == old(orders))
                && (updated.Some? ==> outcome == Done && orders == updated.value)
    {
      if EnsureAdmin(session.admin) == RedirectToLogin {
        return LoginRequired;
      }
      var index := Orders.OrderIndex(orders, id);
      if index.None? {
        return NotFound;
      }
      var i := index.value;
      orders := orders[i := orders[i].(status := FormValue(form, "status"))];
      ordersFile := orders;
      outcome := Done;
    }
  }
}
