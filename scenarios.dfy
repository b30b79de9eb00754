/**
 * Request sequences against the handlers, proved from their contracts alone.
 */
module Scenarios {
  import opened Wrappers
  import opened Records
  import Catalog
  import Cart
  import Server

  /** A mug with a colour field: add it with `color=red`, view the cart, check out. */
  method MugCheckout()
  {
    var mug := Product("1", Some("Mug"), None, None, ["color"]);
    var store := new Server.Store([mug], []);
    var session := new Server.Session();

    assert Catalog.FindProduct([mug], "1") == Some(mug);
    var added := store.AddToCart(session, "1", map["color" := "red"]);
    assert added == Server.Done;
    var item := Cart.NewItem(mug, map["color" := "red"]);
    assert Cart.Contents(None) + [item] == [item];
    assert session.cart == Some([item]);
    assert item.fields == map["color" := "red"];

    var lines := store.ViewCart(session);
    assert |lines| == 1 && lines[0] == Cart.Line(Some(mug), map["color" := "red"]);

    var order := store.Checkout(session, "100");
    assert order.items == [item] && order.status == Some("Pending");
    assert store.orders == [order] && store.ordersFile == [order];
    assert session.cart == Some([]);

    var again := store.Checkout(session, "101");
    assert again.items == [];
  }

  /** Unknown products and orders answer 404 and change nothing; a wrong
      password leaves the session without admin rights, so the admin
      handlers redirect to the login page. */
  method Refusals()
  {
    var store := new Server.Store([], []);
    var session := new Server.Session();

    var added := store.AddToCart(session, "42", map[]);
    assert added == Server.NotFound && session.cart == None;

    var login := store.Login(session, map["username" := "admin", "password" := "secret"]);
    assert login == Server.InvalidCredentials && !session.admin;

    var created := store.CreateProduct(session, "7", map["customFields" := "size"]);
    assert created == Server.LoginRequired && store.products == [];

    login := store.Login(session, map["username" := "admin", "password" := "password"]);
    assert login == Server.Done && session.admin;

    var missing := store.SetOrderStatus(session, "999", map["status" := "Shipped"]);
    assert missing == Server.NotFound && store.orders == [];

    created := store.CreateProduct(session, "7", map["title" := "Shirt"]);
    assert created == Server.Failed && store.products == [];
  }
}
