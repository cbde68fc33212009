/** The request handlers of the food-ordering application over one client's
    session and the shared tables.  Each writing handler is a method that
    changes the tables or the session in place; each read-only page is a
    function of the current state.  Handlers behind the login guard answer
    LoginRequired, and write nothing, when no user is logged in. */
module App {
  import opened Credentials
  import opened Queries
  import opened Store

  /** The login state of the client's session. */
  datatype Session = Anonymous | Authenticated(userId: nat)

  /** The outcome of a writing handler: done, sent to the login page by the
      guard, or refused with an error message. */
  datatype Reply = Done | LoginRequired | Rejected(error: Error)

  /** The outcome of a read-only page behind the guard. */
  datatype View<T> = Page(rows: T) | RedirectToLogin

  class FoodApp {
    var users: seq<User>
    var foods: seq<Food>
    var carts: seq<CartLine>
    var orders: seq<Order>
    var nextUserId: nat
    var nextCartId: nat
    var nextOrderId: nat
    var session: Session

    /** The tables as one value. */
    function Tables(): Db
      reads this
    {
      Db(users, foods, carts, orders, nextUserId, nextCartId, nextOrderId)
    }

    /** The tables keep their invariant, and a logged-in session names a user
        that exists. */
    ghost predicate Valid()
      reads this
    {
      Store.Valid(Tables()) && (session.Authenticated? ==> LoadUser(users, session.userId).Some?)
    }

    /** Empty user, cart and order tables over a catalog; nobody logged in. */
    constructor (catalog: seq<Food>)
      requires CatalogValid(catalog)
      ensures Valid()
      ensures Tables() == Db([], catalog, [], [], 1, 1, 1) && session == Anonymous
    {
      users, foods, carts, orders := [], catalog, [], [];
      nextUserId, nextCartId, nextOrderId := 1, 1, 1;
      session := Anonymous;
    }

    /** current_user: the logged-in user, reloaded from the user table by the
        id the session holds. */
    function CurrentUser(): (r: Option<User>)
      reads this
      ensures r.Some? ==> r.value in users && session == Authenticated(r.value.id)
      ensures session.Anonymous? ==> r.None?
      ensures Valid() ==> (r.Some? <==> session.Authenticated?)
    {
      match session
      case Anonymous => None
      case Authenticated(id) => LoadUser(users, id)
    }

    /** register: refuses a taken username; otherwise adds one user whose
        stored password is the digest of the given one.  Does not log in. */
    method Register(username: string, password: string, salt: nat) returns (reply: Reply)
      requires Valid()
      modifies this`users, this`nextUserId
      ensures Valid()
      ensures foods == old(foods)
      ensures var result := AddUser(old(Tables()), username, Hash(password, salt));
              match result
              case Err(e) => reply == Rejected(e) && Tables() == old(Tables())
              case Ok(db) => reply == Done && Tables() == db
    {
      var digest := Hash(password, salt);
      if FindUser(users, username).Some? {
        return Rejected(UsernameTaken);
      }
      AddUserValid(Tables(), username, digest);
      users := users + [User(nextUserId, username, digest)];
      nextUserId := nextUserId + 1;
      reply := Done;
    }

    /** login: logs in as the user with this username when the password checks
        against that user's digest; otherwise the session is left as it was. */
    method Login(username: string, password: string) returns (reply: Reply)
      requires Valid()
      modifies this`session
      ensures Valid()
      ensures foods == old(foods)
      ensures match Authenticate(users, username, password)
              case Some(id) => reply == Done && session == Authenticated(id)
              case None => reply == Rejected(InvalidCredentials) && session == old(session)
    {
      var user := FindUser(users, username);
      if user.Some? && Check(user.value.password, password) {
        session := Authenticated(user.value.id);
        reply := Done;
      } else {
        reply := Rejected(InvalidCredentials);
      }
    }

    /** logout: ends the session; behind the guard like every page but login,
        register and home. */
    method Logout() returns (reply: Reply)
      requires Valid()
      modifies this`session
      ensures Valid()
      ensures foods == old(foods)
      ensures old(CurrentUser()).None? ==> reply == LoginRequired && session == old(session)
      ensures old(CurrentUser()).Some? ==> reply == Done && session == Anonymous
    {
      if CurrentUser().None? {
        return LoginRequired;
      }
      session := Anonymous;
      reply := Done;
    }

    /** add_to_cart: one more unit of the food in the current user's cart. */
    method AddToCart(foodId: nat) returns (reply: Reply)
      requires Valid()
      modifies this`carts, this`nextCartId
      ensures Valid()
      ensures foods == old(foods)
      ensures old(CurrentUser()).None? ==> reply == LoginRequired && Tables() == old(Tables())
      ensures old(CurrentUser()).Some? ==>
                reply == Done && Tables() == UpsertLine(old(Tables()), old(CurrentUser()).value.id, foodId)
    {
      var user := CurrentUser();
      if user.None? {
        return LoginRequired;
      }
      var userId := user.value.id;
      ghost var after := UpsertLine(Tables(), userId, foodId);
      UpsertValid(Tables(), userId, foodId);
      var item := LineFor(carts, userId, foodId);
      if item.Some? {
        carts := UpdateRow(carts, item.value.(quantity := item.value.quantity + 1));
      } else {
        carts := carts + [CartLine(nextCartId, userId, foodId, 1)];
        nextCartId := nextCartId + 1;
      }
      assert Tables() == after;
      reply := Done;
    }

    /** place_order: for each line of the current user's cart, records an order
        with the food's name and price and deletes the line; the writes are
        staged and committed together at the end.  A line whose food is not in
        the catalog stops the handler before the commit, so nothing is written. */
    method PlaceOrder() returns (reply: Reply)
      requires Valid()
      modifies this`carts, this`orders, this`nextOrderId
      ensures Valid()
      ensures foods == old(foods)
      ensures old(CurrentUser()).None? ==> reply == LoginRequired && Tables() == old(Tables())
      ensures old(CurrentUser()).Some? ==>
                match Checkout(old(Tables()), old(CurrentUser()).value.id)
                case Err(e) => reply == Rejected(e) && Tables() == old(Tables())
                case Ok(db) => reply == Done && Tables() == db
    {
      var user := CurrentUser();
      if user.None? {
        return LoginRequired;
      }
      var userId := user.value.id;
      var committed := CommitCheckout(Tables(), userId);
      if committed.Err? {
        return Rejected(committed.error);
      }
      CheckoutOk(Tables(), userId);
      CheckoutValid(Tables(), userId);
      carts, orders, nextOrderId := committed.value.carts, committed.value.orders, committed.value.nextOrderId;
      reply := Done;
    }

    /** home: the whole catalog, whether or not anyone is logged in.  No
        handler writes the catalog, so every visitor sees the same one, and
        under the invariant it lists each food key once. */
    function Home(): (r: seq<Food>)
      reads this
      ensures r == foods
      ensures Valid() ==> CatalogValid(r)
    {
      foods
    }

    /** dashboard: the same catalog as home, behind the guard. */
    function Dashboard(): (r: View<seq<Food>>)
      reads this
      ensures r.RedirectToLogin? <==> CurrentUser().None?
      ensures r.Page? ==> r.rows == Home()
    {
      if CurrentUser().None? then RedirectToLogin else Page(foods)
    }

    /** cart: the current user's cart lines, behind the guard. */
    function CartPage(): (r: View<seq<CartLine>>)
      reads this
      ensures r.RedirectToLogin? <==> CurrentUser().None?
      ensures r.Page? ==> forall l :: l in r.rows <==> l in carts && l.userId == CurrentUser().value.id
      ensures r.Page? ==> r.rows == CartOf(carts, CurrentUser().value.id)
    {
      match CurrentUser()
      case None => RedirectToLogin
      case Some(u) => Page(CartOf(carts, u.id))
    }

    /** orders: the current user's orders, behind the guard. */
    function OrdersPage(): (r: View<seq<Order>>)
      reads this
      ensures r.RedirectToLogin? <==> CurrentUser().None?
      ensures r.Page? ==> forall o :: o in r.rows <==> o in orders && o.userId == CurrentUser().value.id
      ensures r.Page? ==> r.rows == OrdersOf(orders, CurrentUser().value.id)
    {
      match CurrentUser()
      case None => RedirectToLogin
      case Some(u) => Page(OrdersOf(orders, u.id))
    }
  }
}
