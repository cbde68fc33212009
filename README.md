# Food ordering application — a verified model

The application is a small web shop. Visitors register and log in, browse a
food catalog, add foods to a cart, and place orders. The orders copy each
food's name and price at checkout time. Everything it does is a read or a
write on four database tables (User, Food, Cart, Order) plus the login state
of the client's session.

The model replaces the database with values: each table is a sequence of rows
in insertion order, with a counter for the next primary key. Four modules:

- `Credentials` (credentials.dfy): the password digest. `Hash` makes a digest
  from a password and a salt; `Check` tests a candidate password against it.
- `Queries` (queries.dfy): the two query shapes the handlers issue.
  - `Filter` is `filter_by(...).all()`.
  - `First` is `filter_by(...).first()` and `query.get(id)`.
  - `Pairwise` states a uniqueness constraint on a table.
- `Store` (store.dfy): the row types and the `Db` value of all four tables.
  - `Valid` is the invariant the handlers keep: unique keys, unique
    usernames, at most one cart line per (user, food), every line with
    quantity at least 1.
  - The lookups each handler issues.
  - The effect of each writing handler as a function on `Db`: `AddUser`,
    `Authenticate`, `UpsertLine`, `Checkout`.
  - The place_order loop as methods proved against those functions.
  - Lemmas for the properties the application relies on.
- `App` (app.dfy): the class `FoodApp`, holding the tables and the session as
  fields.
  - Each writing handler is a method that updates the fields in place and
    states its new state as the corresponding `Store` function of the old.
  - Each read-only page is a function of the fields.
  - Handlers behind the login guard answer `LoginRequired` and write nothing
    while no one is logged in.

## Model

| member | source | states |
|---|---|---|
| Credentials.Hash | app.py:66 | the digest stored at registration records the salt drawn for it; its image is the password itself, so digests of different passwords differ (see Left out) |
| Credentials.Check | app.py:85 | a digest checks against a password exactly when it is the digest that password makes under the digest's own salt |
| Credentials.HashThenCheck | app.py:66-85 | a digest made at registration checks against the password that made it, whatever the salt, and against no other password |
| Queries.Filter | app.py:119 | `filter_by(...).all()`: the result's members are exactly the rows of the table that match, and it is no longer than the table; FilterCount states that each matching row occurs as often as in the table |
| Queries.FilterCount | app.py:119 | `filter_by(...).all()` lists each matching row as often as the table holds it, so a row held once is listed once, and never lists a row that does not match |
| Queries.First | app.py:104 | `filter_by(...).first()`: there is a result exactly when some row matches, and the result is a matching row of the table |
| Store.Valid | app.py:17-43 | the invariant: unique user, food, cart and order keys; user, cart and order keys below their table's next key; unique usernames; every cart line with quantity at least 1; at most one line per (user, food). It has no contract of its own; AddUserValid, UpsertValid, CheckoutValid and SeededDb state that it holds |
| Store.FindUser | app.py:83 | the user lookup by username finds a row exactly when one has that username, and the row it finds has it |
| Store.LoadUser | app.py:49-51 | load_user finds a row exactly when one has that id, and the row it finds has it |
| Store.FindFood | app.py:129 | `Food.query.get` finds a food exactly when one has that id, and the food it finds has it |
| Store.LineFor | app.py:104 | the cart lookup finds a line exactly when the user has one for that food, and the line it finds is one |
| Store.CartOf | app.py:119 | the cart query's members are exactly the lines of the table that belong to the user |
| Store.CartOfCount | app.py:119 | the cart query lists each of the user's lines as often as the table holds it, and no other line |
| Store.OrdersOf | app.py:141 | the orders query's members are exactly the orders of the table that belong to the user |
| Store.OrdersOfCount | app.py:141 | the orders query lists each of the user's orders as often as the table holds it, and no other order |
| Store.DeleteRows | app.py:132 | `session.delete` of the given rows: the table that is left is no longer, and its members are exactly the rows of the old table that were not deleted |
| Store.DeleteRowsCount | app.py:132 | deletion keeps each row that was not deleted as often as the table held it, and removes every copy of a deleted row |
| Store.UpdateRow | app.py:107 | writing a row back over its key keeps the table's length; UpdateRowWrites and UpsertExisting state what it writes |
| Store.UpdateRowWrites | app.py:107 | writing a row over the key of a row of the table puts the written row in the table |
| Store.SeedCatalog | app.py:158-180 | the three seeded foods get keys 1, 2 and 3 in insertion order, so the catalog's keys are unique |
| Store.SeededDb | app.py:155-180 | the database at first start, holding only the seeded catalog, satisfies the invariant |
| Store.SeededVisit | app.py:62-135 | on the seeded catalog, the following visit leaves the user one order for the burger at price 120 and an empty cart: register, log in, add the burger twice, place the order |
| Store.AddUser | app.py:68-74 | register fails with UsernameTaken exactly when the username exists; otherwise exactly one user is appended, with the next key and the given digest, and nothing else changes |
| Store.AddUserValid | app.py:20 | registering keeps the invariant, so usernames stay unique |
| Store.Authenticate | app.py:83-85 | login yields the id of a user with that username whose digest checks against the password; with unique usernames it succeeds exactly when such a user exists; an id it yields loads a user |
| Store.SameUsernameSameUser | app.py:20 | in a table with unique usernames, two rows with the same username are the same row |
| Store.WrongPasswordRejected | app.py:85 | a password other than the registered one never logs in |
| Store.RegisterThenLogin | app.py:66-86 | after registering a fresh username, logging in with the same password succeeds as the new user |
| Store.UpsertLine | app.py:104-110 | add_to_cart touches only the cart table and its key counter; UpsertExisting, UpsertNew, UpsertHasLine and UpsertValid state what it does to the cart table |
| Store.UpsertHasLine | app.py:104-110 | after add_to_cart the user's cart holds a line for the food, whether one was raised or appended |
| Store.UpsertExisting | app.py:104-107 | when the user has a line for the food, add_to_cart raises that line's quantity by exactly 1 and changes no other row or table |
| Store.UpsertNew | app.py:37 | when the user has no line for the food, add_to_cart appends one line (user id, food id, quantity 1, next key), and changes nothing else |
| Store.UpsertValid | app.py:104-110 | add_to_cart keeps the invariant, in particular at most one line per (user, food) |
| Store.UpsertTwice | app.py:104-110 | adding a food twice to a cart without it leaves one line for it with quantity 2 |
| Store.Receipt | app.py:130 | the order recorded for one line; it has no contract of its own, and SnapshotSpec and CheckoutOrders state that it carries the user's id and the food's name and price at checkout |
| Store.Snapshot | app.py:128-131 | the orders staged by the place_order loop: a successful snapshot has one order per line; SnapshotSpec states the rest |
| Store.SnapshotSpec | app.py:128-131 | the checkout's snapshot succeeds exactly when every line's food is in the catalog; it then yields one receipt per line, in line order, with the food's name and price and consecutive keys; otherwise it reports the first line whose food is missing |
| Store.StageOrders | app.py:128-131 | the place_order loop computes exactly the snapshot: it stops at the first missing food, or stages one receipt per line |
| Store.CommitCheckout | app.py:126-134 | staging the orders, then deleting the user's lines and appending the orders, computes exactly the checkout |
| Store.SnapshotFirstMissing | app.py:129-130 | when every line before line k has its food and line k's food is missing, the snapshot fails on line k's food |
| Store.Checkout | app.py:126-134 | place_order fails exactly when one of the user's lines names a food that is missing, and the error names the food of such a line, one missing from the catalog |
| Store.CheckoutEmptiesCart | app.py:126-132 | after a successful place_order the user has no cart lines |
| Store.CheckoutKeepsOthers | app.py:126-132 | place_order leaves every other user's cart lines unchanged, and the user and food tables too |
| Store.CheckoutOk | app.py:126-134 | unfolding helper of Checkout, for its callers: a successful checkout keeps the other users' lines, appends the snapshot's orders and advances the order key by their number |
| Store.CheckoutOrders | app.py:128-131 | place_order appends exactly one order per cart line, not per unit; the k-th carries the next key plus k, the user's id, and the food's name and price at checkout |
| Store.CheckoutOrderLists | app.py:141 | after place_order, the user's orders page is the old list followed by the new orders; every other user's orders page is unchanged |
| Store.CheckoutEmptyCart | app.py:126-135 | place_order on an empty cart succeeds and changes nothing |
| Store.CheckoutTwice | app.py:126-135 | a second place_order right after a successful one changes nothing |
| Store.PlacedOrdersValid | app.py:41 | appending orders with consecutive keys from the next key keeps order keys unique and below the next key |
| Store.CheckoutValid | app.py:126-134 | place_order keeps the invariant |
| Store.CheckoutByLines | app.py:128-134 | recording the snapshot's orders and deleting the user's lines is exactly the checkout |
| Store.CheckoutStops | app.py:129-130 | unfolding helper of Checkout, for its callers: a snapshot failure is the checkout's failure, with the same error |
| Store.CartOfDistinctFoods | app.py:119 | under the invariant, the cart page lists each food at most once |
| Store.DeleteOwnLines | app.py:126-132 | deleting every line of the user's cart leaves exactly the other users' lines, in table order |
| App.FoodApp.constructor | app.py:18-44 | the application starts with empty user, cart and order tables over a valid catalog, key counters at 1, and nobody logged in |
| App.FoodApp.Valid | app.py:17-51 | the application's invariant: the tables satisfy Store.Valid, and a logged-in session names a user of the user table, which CurrentUser's third ensures rests on; the constructor establishes it and every handler keeps it |
| App.FoodApp.CurrentUser | app.py:49-51 | the current user is a row of the user table whose id the session holds; none when anonymous; under the invariant, some exactly when logged in |
| App.FoodApp.Register | app.py:62-77 | the user table changes exactly as AddUser says; a taken username is refused with the tables unchanged; the invariant is kept; the catalog is unchanged |
| App.FoodApp.Login | app.py:80-91 | the session becomes Authenticated(id) exactly when Authenticate yields id; otherwise InvalidCredentials is reported and the session is unchanged; the catalog is unchanged |
| App.FoodApp.Logout | app.py:145-149 | behind the guard; when a user is logged in, the session becomes Anonymous; the catalog is unchanged |
| App.FoodApp.AddToCart | app.py:101-113 | behind the guard, with no write while anonymous; otherwise the tables become UpsertLine of the old tables; the invariant is kept; the catalog is unchanged |
| App.FoodApp.PlaceOrder | app.py:123-135 | behind the guard, with no write while anonymous; otherwise the tables become Checkout of the old tables, or stay unchanged with the missing food's error; the invariant is kept; the catalog is unchanged |
| App.FoodApp.Home | app.py:56-59 | every visitor, logged in or not, is shown the whole catalog, which no handler changes (each writing handler ensures the catalog is unchanged); under the invariant the page lists each food key once |
| App.FoodApp.Dashboard | app.py:94-98 | the dashboard redirects to login exactly when no one is logged in, and otherwise lists the same catalog as home |
| App.FoodApp.CartPage | app.py:116-120 | the cart page redirects exactly when no one is logged in, and otherwise lists exactly the current user's cart lines |
| App.FoodApp.OrdersPage | app.py:138-142 | the orders page redirects exactly when no one is logged in, and otherwise lists exactly the current user's orders, as the order query returns them, so CheckoutOrderLists applies to the page |

## Left out

- HTTP routing, templates, `redirect`/`url_for` and `flash` messages are plumbing. A handler's outcome is a `Reply`: done, login required, or rejected with an error. A page's outcome is a `View`: its rows, or a redirect to login.
- GET requests to `/register` and `/login` only render a form and change nothing. They are not modelled.
- SQLAlchemy and SQLite are not modelled. Sessions, `commit`, `create_all` and the configuration constants are replaced by in-memory tables.
  - Primary keys come from per-table counters that start at 1 and never go back. SQLite may reuse the largest key of a table after its last row is deleted; that reuse is not modelled.
  - Query results come in insertion order. SQL without `ORDER BY` gives no ordering guarantee.
- Store.DeleteRows: `session.delete(item)` removes a row by its primary key. The model removes every row equal to a deleted line. The two agree whenever cart keys are unique, which the invariant keeps.
- The salted hash of `generate_password_hash` is not modelled. A digest keeps its salt and, as its image, the password itself; only `Hash` and `Check` look inside it. The random salt is a parameter.
- Credentials.Hash: the digest is modelled as injective in the password, so no two passwords share a digest. The no-other-password half of HashThenCheck and all of WrongPasswordRejected rest on this; the real salted hash meets it only with overwhelming probability, not for every pair of passwords.
- Prices are floats in the schema and integers here. They are only copied from a food into an order, never computed on.
- App.FoodApp.PlaceOrder: a cart line whose food is missing makes the handler fail at `food.name`, before the commit. The model reports `FoodNotFound` for the first such line with the tables unchanged. This matches the session being rolled back when the request fails; the source itself is silent about this and gives no recovery.
- The atomicity of place_order is modelled as the code has it: all writes are staged and committed once. There is no explicit transaction.
- Concurrency is not modelled: there is one client session and requests run one at a time. The races in the username check and in the multi-row checkout are therefore out of scope.
- The parsing of `user_id` into an integer in load_user and of `<int:food_id>` in routing are not modelled; ids arrive as naturals.
- A missing form field in register or login fails the request before any write. It is not modelled.
- Integer widths are not modelled: quantities and keys are unbounded.
- The cart page's rendering looks up each line's food in the template. The model's cart page returns the lines only.
- `app.run` and the startup block are left out. Only the seeded catalog itself is modelled, as one example initial state.
