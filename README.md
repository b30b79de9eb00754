# Storefront state logic in Dafny

A model of the request handlers of a small Express storefront (`server.js`).
The server keeps two process-wide lists, the product catalog and the orders,
and rewrites the matching JSON data file after each change. Each visitor
session holds an optional cart and an admin flag. The model covers:

- looking up a product by id (first match);
- adding a product to the session cart, with one value per declared custom field;
- viewing the cart, resolved against the catalog;
- checking out, which appends a `Pending` order and empties the cart;
- the admin login and the `ensureAdmin` gate;
- creating a product from the admin form, including the comma-separated custom-field parse;
- setting an order's status.

Layout, one module per part of the handlers:

- `wrappers.dfy` (`Wrappers`): `Option`, standing for a JavaScript value that may be `undefined`.
- `records.dfy` (`Records`): `Product`, `CartItem`, `Order` and the form-body lookup.
- `catalog.dfy` (`Catalog`): the product lookup by id and what appending to the catalog does to it.
- `cart.dfy` (`Cart`): building a cart item (the `forEach` loop as a method with invariants) and the cart view.
- `custom_fields.dfy` (`CustomFields`): `split(',')`, `trim()` and `filter(Boolean)`, with round-trip lemmas.
- `orders.dfy` (`Orders`): the order lookup by id and the status update as a function on the order list.
- `server.dfy` (`Server`): `Session` and `Store` classes whose methods are the handlers.
- `scenarios.dfy` (`Scenarios`): request sequences proved from the handlers' contracts alone.

The `Store` keeps ghost copies of what loading each data file would yield now
(the saved list, or the empty list the loader falls back to on start-up when a
file is missing or unreadable). `Synced()` says they equal the in-memory lists. Every handler that changes a list rewrites its
file, so every handler keeps `Synced()`.

The custom-field list of a new product is parsed at `server.js:118`. The code
splits it at commas, trims each piece and drops the empty pieces. It does not
remove duplicates: `CustomFields.ParseJoin` proves that duplicates survive,
and `CustomFields.ParseComma` proves that the pieces keep their order.

## Model

| member | source | states |
|---|---|---|
| Records.FormValue | server.js:112 | destructuring a form field gives the submitted string exactly when the field is present, otherwise undefined |
| Catalog.ProductIndex | server.js:50 | none iff no product has the id; otherwise the index of a product with that id, and no earlier product has it |
| Catalog.FindProduct | server.js:56 | `products.find`: undefined iff no product has the id; otherwise a catalog product with that id, and no product before it has the id |
| Catalog.FindProductAfterAppend | server.js:120 | pushing a product never changes a lookup that already succeeded; a lookup that failed now finds the new product iff its id matches |
| Cart.Submitted | server.js:61 | the submitted value when the form has the field, otherwise the empty string (an empty submission gives `''` either way) |
| Cart.ItemFields | server.js:60-62 | the fields map has exactly the declared names as keys; each value is the submitted value, or `''` when none was submitted |
| Cart.NewItem | server.js:59-62 | the new item's `productId` is the product's id; its field keys are exactly the product's custom fields; each value is the submitted one or `''` |
| Cart.FillFields | server.js:60-62 | the `forEach` loop builds exactly the fields map of `ItemFields` |
| Cart.Contents | server.js:76 | the cart's items, or the empty list when there is no cart |
| Cart.View | server.js:68-71 | one line per cart item, in order; each line's product is the first catalog product with the item's id (undefined if none), and its fields are the item's |
| Cart.ResolvedViewHasProducts | server.js:69 | when every item's id is in the catalog, no line of the view has an undefined product |
| Cart.ViewAppend | server.js:63-71 | appending any item to any cart, stale items included, appends exactly one line to its view: the product now found for the item's id (undefined if none) and the item's fields |
| Cart.AddKeepsResolved | server.js:58-63 | adding a found product keeps every item resolvable, and the new last view line is that product with the fields of the new item |
| Cart.AppendKeepsResolved | server.js:120 | appending a product to the catalog leaves a resolvable cart resolvable, with the same view |
| CustomFields.IsSpace | server.js:118 | the characters `trim()` removes: tab, vertical tab, form feed, line feed, carriage return, the byte-order mark, U+2028 and U+2029, and the Unicode space separators; never a comma, a digit or an ASCII letter |
| CustomFields.TrimStart | server.js:118 | never longer than the input; the result is empty or starts with a non-space character |
| CustomFields.TrimEnd | server.js:118 | never longer than the input; the result is empty or ends with a non-space character |
| CustomFields.TrimStartShape | server.js:118 | the input is an all-space prefix followed by the `TrimStart` result |
| CustomFields.TrimEndShape | server.js:118 | the input is the `TrimEnd` result followed by an all-space suffix |
| CustomFields.Trim | server.js:118 | `trim()`: the result neither starts nor ends with a space character, and an already trimmed string is returned unchanged |
| CustomFields.TrimShape | server.js:118 | the input is an all-space prefix, then the `Trim` result, then an all-space suffix |
| CustomFields.TrimAllSpace | server.js:118 | a piece of only space characters trims to the empty string |
| CustomFields.TrimKeepsOut | server.js:118 | trimming adds no character: a character missing from the input is missing from the result |
| CustomFields.Split | server.js:118 | `split(',')`: always at least one piece, and no piece contains a comma |
| CustomFields.SplitPrefix | server.js:118 | a comma-free prefix joins onto the first piece of the split |
| CustomFields.JoinSplit | server.js:118 | joining the split pieces with commas gives back the original text |
| CustomFields.SplitJoin | server.js:118 | splitting a comma-join of at least one comma-free piece gives back those pieces |
| CustomFields.TrimAll | server.js:118 | `map(f => f.trim())`: same length, each entry the trim of the piece at the same position |
| CustomFields.JoinAppend | server.js:118 | comma-joining two non-empty piece lists with a comma between them is comma-joining their concatenation |
| CustomFields.SplitComma | server.js:118 | splitting `x,y` gives the pieces of `x` followed by the pieces of `y` |
| CustomFields.TrimAllAppend | server.js:118 | trimming each piece of a concatenation is trimming each part, in order |
| CustomFields.TrimAllTrimmed | server.js:118 | trimming pieces that are already trimmed changes nothing |
| CustomFields.DropEmpty | server.js:118 | `filter(Boolean)`: no empty entry is left; every non-empty entry is kept as many times as it occurs; pieces that are all non-empty are kept as they are |
| CustomFields.DropEmptyAppend | server.js:118 | filtering keeps order: filtering a concatenation is filtering each part and concatenating, and one piece is kept iff it is non-empty |
| CustomFields.ParseCustomFields | server.js:118 | every parsed custom-field name is non-empty, has no leading or trailing space character and contains no comma |
| CustomFields.ParseComma | server.js:118 | the names parsed from `x,y` are the names parsed from `x` followed by the names parsed from `y`, so parsing keeps the list's order |
| CustomFields.ParsePiece | server.js:118 | a comma-free piece parses to its trim, or to no name when the trim is empty |
| CustomFields.ParseBlankThen | server.js:118 | a blank piece before a clean name is dropped, leaving just that name |
| CustomFields.ParseSkipsBlank | server.js:118 | `x, ,y` with clean names `x` and `y` parses to `x` then `y`: the blank piece is dropped and the order kept |
| CustomFields.ParseJoin | server.js:118 | names that are non-empty, trimmed and comma-free parse back from their comma-join unchanged: same order, duplicates kept; the empty text parses to no names |
| CustomFields.ParseIdempotent | server.js:118 | re-parsing the comma-join of parsed names gives the same names |
| Orders.OrderIndex | server.js:126 | none iff no order has the id; otherwise the index of the first order with that id |
| Orders.WithStatus | server.js:126-128 | none iff no order has the id; otherwise the list has the same length, and the first order with the id keeps its id and items and takes the new status; every other order is unchanged |
| Orders.WithStatusKeepsIds | server.js:128 | a status update changes no order's id |
| Orders.WithStatusThenFind | server.js:126-128 | after an update, a lookup by the same id finds the same position |
| Orders.LastStatusWins | server.js:126-128 | two updates of one order's status are the same as the second update alone |
| Server.ValidCredentials | server.js:93-94 | the login succeeds iff the form has `username` equal to `admin` and `password` equal to `password` |
| Server.EnsureAdmin | server.js:40-43 | the gate proceeds iff the session's admin flag is set, and redirects to login otherwise |
| Server.Session.constructor | server.js:14-20 | a new session has no cart and is not admin |
| Server.Store.constructor | server.js:37-38 | start-up: the lists are the loaded ones, and the file snapshots equal them |
| Server.Store.ShowProduct | server.js:49-53 | the product shown is the first one with the id; not found iff no product has the id |
| Server.Store.AddToCart | server.js:55-65 | an unknown id gives not-found and leaves the cart unchanged, so an absent cart stays absent; a known id gives a cart equal to the previous items (none if absent) plus one new item at the end; the admin flag and the store are unchanged |
| Server.Store.ViewCart | server.js:67-73 | the view is `Cart.View` of the session's items, one line per item |
| Server.Store.Checkout | server.js:75-86 | appends one order with the given id, the prior cart (empty if absent) as its items and status `Pending`; earlier orders and the products are unchanged; the orders file is rewritten; the cart ends empty in every case |
| Server.Store.Login | server.js:92-99 | only `admin`/`password` sets the admin flag and succeeds; any other form reports invalid credentials and leaves the flag as it was; the cart is untouched |
| Server.Store.CreateProduct | server.js:111-123 | without admin: redirect to login, nothing changes; with no `customFields` in the form: failure, nothing changes; otherwise one product is appended (given id; title, description and price from the form; parsed custom fields); earlier products and all orders are unchanged; the products file is rewritten |
| Server.Store.SetOrderStatus | server.js:125-131 | without admin: redirect to login, nothing changes; no order with the id: not-found, orders unchanged; otherwise the orders become `Orders.WithStatus` of the old orders, so only the first matching order's status changes; products unchanged; the orders file is rewritten |

## Left out

- Express routing, template rendering, redirects, status codes and static files: handlers return an `Outcome` value in their place.
- The session middleware and its store: a session is a `Session` object the caller passes in.
- `POST /admin/logout` (`session.destroy`, server.js:105-109), `GET /`, `GET /admin/login` and the `GET /admin` dashboard: they only render or discard state, and have no logic of their own.
- `loadJson`/`saveJson` (server.js:26-35): file reads and writes and JSON parsing and printing are foreign calls. Loading is the `Store` constructor's parameters; saving is a ghost assignment of the list to its file snapshot.
- `Date.now().toString()` ids (server.js:78, server.js:114): non-deterministic, so they are method parameters. Nothing guards their uniqueness, and the model does not claim it.
- Form values that are arrays or nested objects (`extended: true` parsing): every form value is a string.
- Custom-field names that clash with JavaScript object properties (`constructor`, `__proto__`, ...): form lookup and the fields map are plain `map`s.
- The insertion order of keys in an item's `fields` object: `fields` is a `map`, which has no order.
- Products read from a data file without a `customFields` array, which make `/cart/add/:id` throw: every `Product` has a custom-field list.
- `trim()` works on UTF-16 code units; the model works on Unicode scalar values. The set of space characters is the ECMAScript one written out.
- Interleaving of requests at I/O points, `app.listen` and console output: concurrency and I/O.
