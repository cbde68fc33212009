/** The four tables of the food-ordering application (User, Food, Cart, Order)
    as one value, the invariant the handlers keep on them, the lookups the
    handlers issue, and the effect of each writing handler on the tables,
    with the properties the application relies on proved about them. */
module Store {
  import opened Credentials
  import opened Queries

  datatype User = User(id: nat, username: string, password: Digest)

  datatype Food = Food(id: nat, name: string, description: string, price: int,
                       category: string, image: string)

  /** One pending line of a cart: `quantity` units of food `foodId` for user `userId`. */
  datatype CartLine = CartLine(id: nat, userId: nat, foodId: nat, quantity: int)

  /** A placed order: a copy of the food's name and price as they were at checkout. */
  datatype Order = Order(id: nat, userId: nat, foodName: string, price: int)

  /** The database: the four tables in insertion order, and for each table that
      gains rows the primary key its next row receives. */
  datatype Db = Db(users: seq<User>, foods: seq<Food>, carts: seq<CartLine>, orders: seq<Order>,
                   nextUserId: nat, nextCartId: nat, nextOrderId: nat)

  /** The failures a handler reports: a taken username, a failed login, and a
      cart line whose food is not in the catalog. */
  datatype Error = UsernameTaken | InvalidCredentials | FoodNotFound(foodId: nat)

  datatype Result<+T> = Ok(value: T) | Err(error: Error)

  // ---------------------------------------------------------------- invariant

  predicate DistinctUsernames(a: User, b: User) { a.username != b.username }
  predicate DistinctUserIds(a: User, b: User) { a.id != b.id }
  predicate DistinctFoodIds(a: Food, b: Food) { a.id != b.id }
  predicate DistinctCartIds(a: CartLine, b: CartLine) { a.id != b.id }
  predicate DistinctLines(a: CartLine, b: CartLine) { a.userId == b.userId ==> a.foodId != b.foodId }
  predicate DistinctOrderIds(a: Order, b: Order) { a.id != b.id }

  ghost predicate UsernamesUnique(users: seq<User>) { Pairwise(users, DistinctUsernames) }

  /** At most one cart line per (user, food) pair. */
  ghost predicate OneLinePerFood(carts: seq<CartLine>) { Pairwise(carts, DistinctLines) }

  ghost predicate CatalogValid(foods: seq<Food>) { Pairwise(foods, DistinctFoodIds) }

  /** Primary keys are unique and below the next key of their table, usernames
      are unique, every cart line holds at least one unit and no (user, food)
      pair has two lines. */
  ghost predicate Valid(db: Db)
  {
    && UsernamesUnique(db.users)
    && Pairwise(db.users, DistinctUserIds)
    && (forall u :: u in db.users ==> u.id < db.nextUserId)
    && CatalogValid(db.foods)
    && Pairwise(db.carts, DistinctCartIds)
    && OneLinePerFood(db.carts)
    && (forall l :: l in db.carts ==> l.id < db.nextCartId && 1 <= l.quantity)
    && Pairwise(db.orders, DistinctOrderIds)
    && (forall o :: o in db.orders ==> o.id < db.nextOrderId)
  }

  // ---------------------------------------------------------------- lookups

  function HasUsername(name: string): User -> bool { (u: User) => u.username == name }
  function HasUserId(id: nat): User -> bool { (u: User) => u.id == id }
  function HasFoodId(id: nat): Food -> bool { (f: Food) => f.id == id }
  function IsLine(userId: nat, foodId: nat): CartLine -> bool
  {
    (l: CartLine) => l.userId == userId && l.foodId == foodId
  }
  function OwnedBy(userId: nat): CartLine -> bool { (l: CartLine) => l.userId == userId }
  function NotOwnedBy(userId: nat): CartLine -> bool { (l: CartLine) => l.userId != userId }
  function PlacedBy(userId: nat): Order -> bool { (o: Order) => o.userId == userId }
  function NotAmong(rows: seq<CartLine>): CartLine -> bool { (l: CartLine) => l !in rows }

  /** `User.query.filter_by(username=name).first()` */
  function FindUser(users: seq<User>, name: string): (r: Option<User>)
    ensures r.Some? <==> exists u :: u in users && u.username == name
    ensures r.Some? ==> r.value in users && r.value.username == name
  {
    First(users, HasUsername(name))
  }

  /** load_user: `User.query.get(id)` */
  function LoadUser(users: seq<User>, id: nat): (r: Option<User>)
    ensures r.Some? <==> exists u :: u in users && u.id == id
    ensures r.Some? ==> r.value in users && r.value.id == id
  {
    First(users, HasUserId(id))
  }

  /** `Food.query.get(id)` */
  function FindFood(foods: seq<Food>, id: nat): (r: Option<Food>)
    ensures r.Some? <==> exists f :: f in foods && f.id == id
    ensures r.Some? ==> r.value in foods && r.value.id == id
  {
    First(foods, HasFoodId(id))
  }

  /** `Cart.query.filter_by(user_id=userId, food_id=foodId).first()` */
  function LineFor(carts: seq<CartLine>, userId: nat, foodId: nat): (r: Option<CartLine>)
    ensures r.Some? <==> exists l :: l in carts && l.userId == userId && l.foodId == foodId
    ensures r.Some? ==> r.value in carts && r.value.userId == userId && r.value.foodId == foodId
  {
    First(carts, IsLine(userId, foodId))
  }

  /** `Cart.query.filter_by(user_id=userId).all()` */
  function CartOf(carts: seq<CartLine>, userId: nat): (r: seq<CartLine>)
    ensures forall l :: l in r <==> l in carts && l.userId == userId
  {
    Filter(carts, OwnedBy(userId))
  }

  /** `Order.query.filter_by(user_id=userId).all()` */
  function OrdersOf(orders: seq<Order>, userId: nat): (r: seq<Order>)
    ensures forall o :: o in r <==> o in orders && o.userId == userId
  {
    Filter(orders, PlacedBy(userId))
  }

  /** The cart query returns each of the user's lines as often as the table
      holds it, and no other line. */
  lemma CartOfCount(carts: seq<CartLine>, userId: nat, l: CartLine)
    ensures multiset(CartOf(carts, userId))[l] == if l.userId == userId then multiset(carts)[l] else 0
  {
    FilterCount(carts, OwnedBy(userId), l);
  }

  /** The orders query returns each of the user's orders as often as the table
      holds it, and no other order. */
  lemma OrdersOfCount(orders: seq<Order>, userId: nat, o: Order)
    ensures multiset(OrdersOf(orders, userId))[o] == if o.userId == userId then multiset(orders)[o] else 0
  {
    FilterCount(orders, PlacedBy(userId), o);
  }

  /** The cart lines of every user other than `userId`, in table order. */
  function OthersLines(carts: seq<CartLine>, userId: nat): (r: seq<CartLine>)
    ensures forall l :: l in r <==> l in carts && l.userId != userId
  {
    Filter(carts, NotOwnedBy(userId))
  }

  /** The cart table after `session.delete` of each of `rows` and a flush:
      every row of the table that is one of them is gone. */
  function DeleteRows(carts: seq<CartLine>, rows: seq<CartLine>): (r: seq<CartLine>)
    ensures |r| <= |carts|
    ensures forall l :: l in r <==> l in carts && l !in rows
  {
    Filter(carts, NotAmong(rows))
  }

  /** Deleting rows keeps every other row as often as the table held it. */
  lemma DeleteRowsCount(carts: seq<CartLine>, rows: seq<CartLine>, l: CartLine)
    ensures multiset(DeleteRows(carts, rows))[l] == if l in rows then 0 else multiset(carts)[l]
  {
    FilterCount(carts, NotAmong(rows), l);
  }

  /** The cart table after writing `row` over the row with the same primary key. */
  function UpdateRow(carts: seq<CartLine>, row: CartLine): (r: seq<CartLine>)
    ensures |r| == |carts|
  {
    seq(|carts|, i requires 0 <= i < |carts| => if carts[i].id == row.id then row else carts[i])
  }

  /** Writing over the key of a row of the table puts the written row in it. */
  lemma UpdateRowWrites(carts: seq<CartLine>, previous: CartLine, row: CartLine)
    requires previous in carts && previous.id == row.id
    ensures row in UpdateRow(carts, row)
  {
    var i :| 0 <= i < |carts| && carts[i] == previous;
    assert UpdateRow(carts, row)[i] == row;
  }

  // ---------------------------------------------------------------- startup

  /** The three foods the application seeds into an empty catalog at startup,
      under the keys 1, 2 and 3 that their insertion order gives them. */
  function SeedCatalog(): (r: seq<Food>)
    ensures CatalogValid(r)
    ensures |r| == 3 && forall k :: 0 <= k < |r| ==> r[k].id == k + 1
  {
    [Food(1, "Burger", "Cheese Burger", 120, "Fast Food", "burger.jpg"),
     Food(2, "Pizza", "Veg Pizza", 250, "Fast Food", "pizza.jpg"),
     Food(3, "Biryani", "Chicken Biryani", 180, "Main Course", "biryani.jpg")]
  }

  /** The database at first start: the seeded catalog and nothing else. */
  function SeededDb(): (r: Db)
    ensures Valid(r)
  {
    Db([], SeedCatalog(), [], [], 1, 1, 1)
  }

  /** One visit on the seeded catalog: register, log in, add the burger twice
      and check out; the user ends with one order for the burger at its price
      and an empty cart. */
  lemma SeededVisit()
    ensures AddUser(SeededDb(), "alice", Hash("secret", 7)).Ok?
    ensures var db1 := AddUser(SeededDb(), "alice", Hash("secret", 7)).value;
            var db2 := UpsertLine(UpsertLine(db1, 1, 1), 1, 1);
            && Authenticate(db1.users, "alice", "secret") == Some(1)
            && db2.carts == [CartLine(1, 1, 1, 2)]
            && Checkout(db2, 1) == Ok(db2.(carts := [], orders := [Order(1, 1, "Burger", 120)], nextOrderId := 2))
  {
    RegisterThenLogin(SeededDb(), "alice", "secret", 7);
    var db1 := AddUser(SeededDb(), "alice", Hash("secret", 7)).value;
    UpsertTwice(db1, 1, 1);
    var db2 := UpsertLine(UpsertLine(db1, 1, 1), 1, 1);
    SeededCheckout(db2);
  }

  lemma SeededCheckout(db: Db)
    requires db.foods == SeedCatalog() && db.carts == [CartLine(1, 1, 1, 2)] && db.orders == []
    requires db.nextOrderId == 1
    ensures Checkout(db, 1) == Ok(db.(carts := [], orders := [Order(1, 1, "Burger", 120)], nextOrderId := 2))
  {
    var lines := CartOf(db.carts, 1);
    assert lines == db.carts;
    assert FindFood(db.foods, 1) == Some(SeedCatalog()[0]);
    assert lines[..0] == [] && lines[..1] == lines;
    SnapshotNext(lines, 0, db.foods, 1, 1, [], SeedCatalog()[0]);
    assert [] + [Receipt(SeedCatalog()[0], 1, 1)] == [Order(1, 1, "Burger", 120)];
    assert OthersLines(db.carts, 1) == [];
    assert db.orders + [Order(1, 1, "Burger", 120)] == [Order(1, 1, "Burger", 120)];
  }

  // ---------------------------------------------------------------- register

  /** register: refuse a username that is taken, otherwise add one user holding
      the digest of the password. */
  function AddUser(db: Db, username: string, password: Digest): (r: Result<Db>)
    ensures r.Err? <==> exists u :: u in db.users && u.username == username
    ensures r.Err? ==> r.error == UsernameTaken
    ensures r.Ok? ==> r.value == db.(users := db.users + [User(db.nextUserId, username, password)],
                                     nextUserId := db.nextUserId + 1)
  {
    if FindUser(db.users, username).Some? then Err(UsernameTaken)
    else Ok(db.(users := db.users + [User(db.nextUserId, username, password)],
                nextUserId := db.nextUserId + 1))
  }

  /** Registering keeps the invariant; in particular usernames stay unique. */
  lemma AddUserValid(db: Db, username: string, password: Digest)
    requires Valid(db)
    requires AddUser(db, username, password).Ok?
    ensures Valid(AddUser(db, username, password).value)
    ensures UsernamesUnique(AddUser(db, username, password).value.users)
  {
    var u := User(db.nextUserId, username, password);
    PairwiseAppend(db.users, u, DistinctUsernames);
    PairwiseAppend(db.users, u, DistinctUserIds);
  }

  // ---------------------------------------------------------------- login

  /** login: the id of the user with this username, when the password checks
      against that user's digest. */
  function Authenticate(users: seq<User>, username: string, password: string): (r: Option<nat>)
    ensures r.Some? ==> exists u :: u in users && u.username == username && u.id == r.value
                                    && Check(u.password, password)
    ensures UsernamesUnique(users) ==>
              (r.Some? <==> exists u :: u in users && u.username == username && Check(u.password, password))
    ensures r.Some? ==> LoadUser(users, r.value).Some?
  {
    match FindUser(users, username)
    case None => None
    case Some(u) => if Check(u.password, password) then Some(u.id) else None
  }

  /** Two rows of a table with unique usernames that share a username are the same row. */
  lemma SameUsernameSameUser(users: seq<User>, a: User, b: User)
    requires UsernamesUnique(users)
    requires a in users && b in users && a.username == b.username
    ensures a == b
  {
    var i :| 0 <= i < |users| && users[i] == a;
    var j :| 0 <= j < |users| && users[j] == b;
    assert i < j ==> DistinctUsernames(a, b);
    assert j < i ==> DistinctUsernames(b, a);
  }

  /** A password other than the registered one never logs in, whatever the salt. */
  lemma WrongPasswordRejected(users: seq<User>, u: User, password: string, salt: nat, attempt: string)
    requires UsernamesUnique(users)
    requires u in users && u.password == Hash(password, salt)
    requires attempt != password
    ensures Authenticate(users, u.username, attempt) == None
  {
    var found := FindUser(users, u.username);
    SameUsernameSameUser(users, found.value, u);
    HashThenCheck(password, salt, attempt);
  }

  /** Registering and then logging in with the same password succeeds, as the new user. */
  lemma RegisterThenLogin(db: Db, username: string, password: string, salt: nat)
    requires FindUser(db.users, username).None?
    ensures AddUser(db, username, Hash(password, salt)).Ok?
    ensures Authenticate(AddUser(db, username, Hash(password, salt)).value.users, username, password)
            == Some(db.nextUserId)
  {
    var after := AddUser(db, username, Hash(password, salt)).value.users;
    var found := FindUser(after, username);
    assert found.value !in db.users;
    assert found.value == User(db.nextUserId, username, Hash(password, salt));
    HashThenCheck(password, salt, password);
  }

  // ---------------------------------------------------------------- add_to_cart

  /** add_to_cart: raise the quantity of the user's line for this food by one, or
      add a line with quantity 1 when there is none.  The food id is not looked
      up in the catalog. */
  function UpsertLine(db: Db, userId: nat, foodId: nat): (r: Db)
    ensures r.users == db.users && r.foods == db.foods && r.orders == db.orders
    ensures r.nextUserId == db.nextUserId && r.nextOrderId == db.nextOrderId
  {
    match LineFor(db.carts, userId, foodId)
    case Some(line) => db.(carts := UpdateRow(db.carts, line.(quantity := line.quantity + 1)))
    case None => db.(carts := db.carts + [CartLine(db.nextCartId, userId, foodId, 1)],
                     nextCartId := db.nextCartId + 1)
  }

  /** Two lines of a valid cart table for the same (user, food) pair are the same line. */
  lemma SameLineSameRow(carts: seq<CartLine>, i: nat, j: nat)
    requires OneLinePerFood(carts)
    requires i < |carts| && j < |carts|
    requires carts[i].userId == carts[j].userId && carts[i].foodId == carts[j].foodId
    ensures i == j
  {
    var li, lj := carts[i], carts[j];
    assert i < j ==> DistinctLines(li, lj);
    assert j < i ==> DistinctLines(lj, li);
  }

  /** When the user already has a line for the food, exactly that line's quantity
      goes up by one; every other row and every other table stays as it was. */
  lemma UpsertExisting(db: Db, userId: nat, foodId: nat, i: nat)
    requires Valid(db)
    requires i < |db.carts| && db.carts[i].userId == userId && db.carts[i].foodId == foodId
    ensures UpsertLine(db, userId, foodId)
            == db.(carts := db.carts[i := db.carts[i].(quantity := db.carts[i].quantity + 1)])
  {
    var line := LineFor(db.carts, userId, foodId).value;
    var k :| 0 <= k < |db.carts| && db.carts[k] == line;
    SameLineSameRow(db.carts, i, k);
    var updated := UpdateRow(db.carts, line.(quantity := line.quantity + 1));
    var expected := db.carts[i := db.carts[i].(quantity := db.carts[i].quantity + 1)];
    forall j | 0 <= j < |db.carts| ensures updated[j] == expected[j] {
      if j < i {
        assert DistinctCartIds(db.carts[j], db.carts[i]);
      } else if i < j {
        assert DistinctCartIds(db.carts[i], db.carts[j]);
      }
    }
    assert updated == expected;
  }

  /** When the user has no line for the food, one line with quantity 1, the
      user's id and the next cart key is appended; nothing else changes. */
  lemma UpsertNew(db: Db, userId: nat, foodId: nat)
    requires forall l :: l in db.carts ==> !(l.userId == userId && l.foodId == foodId)
    ensures UpsertLine(db, userId, foodId)
            == db.(carts := db.carts + [CartLine(db.nextCartId, userId, foodId, 1)],
                   nextCartId := db.nextCartId + 1)
  {
  }

  /** After add_to_cart the user's cart holds a line for the food. */
  lemma UpsertHasLine(db: Db, userId: nat, foodId: nat)
    ensures LineFor(UpsertLine(db, userId, foodId).carts, userId, foodId).Some?
  {
    match LineFor(db.carts, userId, foodId)
    case Some(line) =>
      UpdateRowWrites(db.carts, line, line.(quantity := line.quantity + 1));
    case None =>
      assert CartLine(db.nextCartId, userId, foodId, 1) in UpsertLine(db, userId, foodId).carts;
  }

  /** add_to_cart keeps the invariant: still at most one line per (user, food). */
  lemma UpsertValid(db: Db, userId: nat, foodId: nat)
    requires Valid(db)
    ensures Valid(UpsertLine(db, userId, foodId))
    ensures OneLinePerFood(UpsertLine(db, userId, foodId).carts)
  {
    var after := UpsertLine(db, userId, foodId);
    match LineFor(db.carts, userId, foodId)
    case Some(line) =>
      var i :| 0 <= i < |db.carts| && db.carts[i] == line;
      UpsertExisting(db, userId, foodId, i);
      var c := after.carts;
      assert |c| == |db.carts|;
      forall a, b | 0 <= a < b < |c|
        ensures DistinctCartIds(c[a], c[b]) && DistinctLines(c[a], c[b])
      {
        assert DistinctCartIds(db.carts[a], db.carts[b]) && DistinctLines(db.carts[a], db.carts[b]);
      }
      forall l | l in c ensures l.id < after.nextCartId && 1 <= l.quantity {
        var j :| 0 <= j < |c| && c[j] == l;
        assert db.carts[j] in db.carts;
      }
    case None =>
      var added := CartLine(db.nextCartId, userId, foodId, 1);
      PairwiseAppend(db.carts, added, DistinctCartIds);
      PairwiseAppend(db.carts, added, DistinctLines);
  }

  /** Adding the same food twice to a cart that had none of it leaves one line
      with quantity 2. */
  lemma UpsertTwice(db: Db, userId: nat, foodId: nat)
    requires Valid(db)
    requires forall l :: l in db.carts ==> !(l.userId == userId && l.foodId == foodId)
    ensures UpsertLine(UpsertLine(db, userId, foodId), userId, foodId)
            == db.(carts := db.carts + [CartLine(db.nextCartId, userId, foodId, 2)],
                   nextCartId := db.nextCartId + 1)
  {
    UpsertNew(db, userId, foodId);
    var once := UpsertLine(db, userId, foodId);
    UpsertValid(db, userId, foodId);
    UpsertExisting(once, userId, foodId, |db.carts|);
    assert once.carts[|db.carts| := CartLine(db.nextCartId, userId, foodId, 2)]
        == db.carts + [CartLine(db.nextCartId, userId, foodId, 2)];
  }

  // ---------------------------------------------------------------- place_order

  /** The order recorded for one cart line: the user and the food's name and price. */
  function Receipt(food: Food, userId: nat, id: nat): Order
  {
    Order(id, userId, food.name, food.price)
  }

  /** The orders checkout records for `lines`, in order, with keys from `firstId`
      on, or the first line whose food is not in the catalog.  What it yields
      is stated by SnapshotSpec. */
  function Snapshot(lines: seq<CartLine>, foods: seq<Food>, userId: nat, firstId: nat): (r: Result<seq<Order>>)
    ensures r.Ok? ==> |r.value| == |lines|
    decreases |lines|
  {
    if lines == [] then Ok([])
    else
      var init := lines[..|lines| - 1];
      var last := lines[|lines| - 1];
      match Snapshot(init, foods, userId, firstId)
      case Err(e) => Err(e)
      case Ok(placed) =>
        match FindFood(foods, last.foodId)
        case None => Err(FoodNotFound(last.foodId))
        case Some(food) => Ok(placed + [Receipt(food, userId, firstId + |placed|)])
  }

  /** Snapshot succeeds exactly when every line's food is in the catalog, and
      then yields one receipt per line, in line order, with consecutive keys;
      otherwise it reports the first line whose food is missing. */
  lemma {:induction false} SnapshotSpec(lines: seq<CartLine>, foods: seq<Food>, userId: nat, firstId: nat)
    ensures var r := Snapshot(lines, foods, userId, firstId);
            && (r.Ok? <==> forall l :: l in lines ==> FindFood(foods, l.foodId).Some?)
            && (r.Ok? ==> |r.value| == |lines|)
            && (r.Ok? ==> forall k :: 0 <= k < |lines| ==>
                  FindFood(foods, lines[k].foodId).Some? &&
                  r.value[k] == Receipt(FindFood(foods, lines[k].foodId).value, userId, firstId + k))
            && (r.Err? ==> exists k :: (0 <= k < |lines| && FindFood(foods, lines[k].foodId).None?
                  && r.error == FoodNotFound(lines[k].foodId)
                  && forall j :: 0 <= j < k ==> FindFood(foods, lines[j].foodId).Some?))
    decreases |lines|
  {
    if lines != [] {
      var init := lines[..|lines| - 1];
      var last := lines[|lines| - 1];
      assert lines == init + [last];
      SnapshotSpec(init, foods, userId, firstId);
    }
  }

  /** The loop of place_order: for each cart line in turn, look up its food
      and stage an order for it, stopping at the first line whose food is
      missing.  What it computes is Snapshot. */
  method StageOrders(lines: seq<CartLine>, foods: seq<Food>, userId: nat, firstId: nat)
    returns (r: Result<seq<Order>>)
    ensures r == Snapshot(lines, foods, userId, firstId)
  {
    var placed := [];
    var k := 0;
    while k < |lines|
      invariant k <= |lines|
      invariant Snapshot(lines[..k], foods, userId, firstId) == Ok(placed)
    {
      var food := FindFood(foods, lines[k].foodId);
      if food.None? {
        SnapshotFirstMissing(lines, foods, userId, firstId, k);
        return Err(FoodNotFound(lines[k].foodId));
      }
      SnapshotNext(lines, k, foods, userId, firstId, placed, food.value);
      placed := placed + [Receipt(food.value, userId, firstId + k)];
      k := k + 1;
    }
    assert lines[..k] == lines;
    r := Ok(placed);
  }

  /** place_order on the tables: stage the orders, then, unless a line's food
      was missing, delete the user's lines and commit.  What it computes is
      Checkout. */
  method CommitCheckout(db: Db, userId: nat) returns (r: Result<Db>)
    ensures r == Checkout(db, userId)
  {
    var items := CartOf(db.carts, userId);
    var staged := StageOrders(items, db.foods, userId, db.nextOrderId);
    if staged.Err? {
      CheckoutStops(db, userId, staged.error);
      return Err(staged.error);
    }
    var placed := staged.value;
    CheckoutByLines(db, userId, placed);
    r := Ok(db.(carts := DeleteRows(db.carts, items),
                orders := db.orders + placed,
                nextOrderId := db.nextOrderId + |placed|));
  }

  /** Taking one more line whose food is found stages one more receipt, under
      the next order id. */
  lemma SnapshotNext(lines: seq<CartLine>, k: nat, foods: seq<Food>, userId: nat, firstId: nat,
                     placed: seq<Order>, food: Food)
    requires k < |lines|
    requires Snapshot(lines[..k], foods, userId, firstId) == Ok(placed)
    requires FindFood(foods, lines[k].foodId) == Some(food)
    ensures Snapshot(lines[..k + 1], foods, userId, firstId) == Ok(placed + [Receipt(food, userId, firstId + k)])
  {
    SnapshotSpec(lines[..k], foods, userId, firstId);
    assert lines[..k + 1][..k] == lines[..k];
  }

  /** When every earlier line's food is found and line k's is not, checkout of
      the lines fails on line k's food. */
  lemma SnapshotFirstMissing(lines: seq<CartLine>, foods: seq<Food>, userId: nat, firstId: nat, k: nat)
    requires k < |lines|
    requires Snapshot(lines[..k], foods, userId, firstId).Ok?
    requires FindFood(foods, lines[k].foodId).None?
    ensures Snapshot(lines, foods, userId, firstId) == Err(FoodNotFound(lines[k].foodId))
  {
    SnapshotSpec(lines[..k], foods, userId, firstId);
    SnapshotSpec(lines, foods, userId, firstId);
    forall j | 0 <= j < k ensures FindFood(foods, lines[j].foodId).Some? {
      assert lines[..k][j] in lines[..k];
    }
    assert lines[k] in lines;
  }

  /** place_order: one order per line of the user's cart, the user's lines
      deleted, and the other tables untouched; or the failure of a line whose
      food is missing, with nothing written. */
  function Checkout(db: Db, userId: nat): (r: Result<Db>)
    ensures r.Err? <==> exists l :: l in CartOf(db.carts, userId) && FindFood(db.foods, l.foodId).None?
    ensures r.Err? ==> exists l :: l in CartOf(db.carts, userId) && FindFood(db.foods, l.foodId).None?
                                   && r.error == FoodNotFound(l.foodId)
  {
    var lines := CartOf(db.carts, userId);
    SnapshotSpec(lines, db.foods, userId, db.nextOrderId);
    match Snapshot(lines, db.foods, userId, db.nextOrderId)
    case Err(e) => Err(e)
    case Ok(placed) =>
      Ok(db.(carts := OthersLines(db.carts, userId),
             orders := db.orders + placed,
             nextOrderId := db.nextOrderId + |placed|))
  }

  /** After checkout the user's cart is empty. */
  lemma CheckoutEmptiesCart(db: Db, userId: nat)
    requires Checkout(db, userId).Ok?
    ensures CartOf(Checkout(db, userId).value.carts, userId) == []
  {
    var after := Checkout(db, userId).value.carts;
    FilterNone(after, OwnedBy(userId));
  }

  /** Checkout leaves every other user's cart lines exactly as they were, and
      the user and food tables unchanged. */
  lemma CheckoutKeepsOthers(db: Db, userId: nat, other: nat)
    requires Checkout(db, userId).Ok?
    requires other != userId
    ensures CartOf(Checkout(db, userId).value.carts, other) == CartOf(db.carts, other)
    ensures Checkout(db, userId).value.users == db.users
    ensures Checkout(db, userId).value.foods == db.foods
  {
    FilterFilter(db.carts, NotOwnedBy(userId), OwnedBy(other), OwnedBy(other));
  }

  /** What a successful checkout writes, in terms of the orders Snapshot makes. */
  lemma CheckoutOk(db: Db, userId: nat)
    requires Checkout(db, userId).Ok?
    ensures Snapshot(CartOf(db.carts, userId), db.foods, userId, db.nextOrderId).Ok?
    ensures var placed := Snapshot(CartOf(db.carts, userId), db.foods, userId, db.nextOrderId).value;
            Checkout(db, userId).value
            == db.(carts := OthersLines(db.carts, userId),
                   orders := db.orders + placed,
                   nextOrderId := db.nextOrderId + |placed|)
  {
  }

  /** Checkout appends one order per cart line (not per unit), each carrying the
      user's id and the name and price the food has at checkout. */
  lemma CheckoutOrders(db: Db, userId: nat)
    requires Checkout(db, userId).Ok?
    ensures var lines := CartOf(db.carts, userId);
            var orders := Checkout(db, userId).value.orders;
            && |orders| == |db.orders| + |lines|
            && orders[..|db.orders|] == db.orders
            && forall k :: 0 <= k < |lines| ==>
                 FindFood(db.foods, lines[k].foodId).Some? &&
                 orders[|db.orders| + k] == Order(db.nextOrderId + k, userId,
                                                  FindFood(db.foods, lines[k].foodId).value.name,
                                                  FindFood(db.foods, lines[k].foodId).value.price)
  {
    CheckoutOk(db, userId);
    var lines := CartOf(db.carts, userId);
    SnapshotSpec(lines, db.foods, userId, db.nextOrderId);
    var placed := Snapshot(lines, db.foods, userId, db.nextOrderId).value;
    var orders := db.orders + placed;
    assert orders[..|db.orders|] == db.orders;
    forall k | 0 <= k < |lines|
      ensures FindFood(db.foods, lines[k].foodId).Some?
      ensures orders[|db.orders| + k] == Order(db.nextOrderId + k, userId,
                                               FindFood(db.foods, lines[k].foodId).value.name,
                                               FindFood(db.foods, lines[k].foodId).value.price)
    {
      assert orders[|db.orders| + k] == placed[k];
    }
  }

  /** The user's order list after checkout is the list before it followed by
      the new orders; every other user's order list is unchanged. */
  lemma CheckoutOrderLists(db: Db, userId: nat, other: nat)
    requires Checkout(db, userId).Ok?
    requires other != userId
    ensures var lines := CartOf(db.carts, userId);
            var placed := Snapshot(lines, db.foods, userId, db.nextOrderId).value;
            var orders := Checkout(db, userId).value.orders;
            && OrdersOf(orders, userId) == OrdersOf(db.orders, userId) + placed
            && OrdersOf(orders, other) == OrdersOf(db.orders, other)
  {
    var lines := CartOf(db.carts, userId);
    SnapshotSpec(lines, db.foods, userId, db.nextOrderId);
    var placed := Snapshot(lines, db.foods, userId, db.nextOrderId).value;
    assert forall o :: o in placed ==> o.userId == userId by {
      forall o | o in placed ensures o.userId == userId {
        var k :| 0 <= k < |placed| && placed[k] == o;
      }
    }
    FilterAppend(db.orders, placed, PlacedBy(userId));
    FilterAppend(db.orders, placed, PlacedBy(other));
    FilterAll(placed, PlacedBy(userId));
    FilterNone(placed, PlacedBy(other));
  }

  /** Checkout of an empty cart succeeds and changes nothing. */
  lemma CheckoutEmptyCart(db: Db, userId: nat)
    requires CartOf(db.carts, userId) == []
    ensures Checkout(db, userId) == Ok(db)
  {
    forall l | l in db.carts ensures l.userId != userId {
      assert l.userId == userId ==> l in CartOf(db.carts, userId);
    }
    FilterAll(db.carts, NotOwnedBy(userId));
    assert db.orders + [] == db.orders;
  }

  /** A second checkout right after a successful one is a no-op. */
  lemma CheckoutTwice(db: Db, userId: nat)
    requires Checkout(db, userId).Ok?
    ensures Checkout(Checkout(db, userId).value, userId) == Checkout(db, userId)
  {
    CheckoutEmptiesCart(db, userId);
    CheckoutEmptyCart(Checkout(db, userId).value, userId);
  }

  /** Appending the orders of a checkout keeps order keys unique and below the next key. */
  lemma PlacedOrdersValid(orders: seq<Order>, placed: seq<Order>, next: nat)
    requires Pairwise(orders, DistinctOrderIds)
    requires forall o :: o in orders ==> o.id < next
    requires forall k :: 0 <= k < |placed| ==> placed[k].id == next + k
    ensures Pairwise(orders + placed, DistinctOrderIds)
    ensures forall o :: o in orders + placed ==> o.id < next + |placed|
  {
    var n := |orders|;
    var all := orders + placed;
    forall i, j | 0 <= i < j < |all| ensures DistinctOrderIds(all[i], all[j]) {
      if j < n {
        assert DistinctOrderIds(orders[i], orders[j]);
      } else if i < n {
        assert all[i] in orders;
        assert all[j] == placed[j - n];
      } else {
        assert all[i] == placed[i - n] && all[j] == placed[j - n];
      }
    }
    forall x | x in all ensures x.id < next + |placed| {
      var i :| 0 <= i < |all| && all[i] == x;
      if i < n {
        assert all[i] in orders;
      } else {
        assert all[i] == placed[i - n];
      }
    }
  }

  /** Checkout keeps the invariant. */
  lemma CheckoutValid(db: Db, userId: nat)
    requires Valid(db)
    requires Checkout(db, userId).Ok?
    ensures Valid(Checkout(db, userId).value)
  {
    CheckoutOk(db, userId);
    var lines := CartOf(db.carts, userId);
    SnapshotSpec(lines, db.foods, userId, db.nextOrderId);
    var placed := Snapshot(lines, db.foods, userId, db.nextOrderId).value;
    assert forall k :: 0 <= k < |placed| ==> placed[k].id == db.nextOrderId + k;
    PlacedOrdersValid(db.orders, placed, db.nextOrderId);
    FilterPairwise(db.carts, NotOwnedBy(userId), DistinctCartIds);
    FilterPairwise(db.carts, NotOwnedBy(userId), DistinctLines);
  }

  /** Checkout done line by line: recording the orders Snapshot makes for the
      user's lines and deleting those lines is the checkout. */
  lemma CheckoutByLines(db: Db, userId: nat, placed: seq<Order>)
    requires Snapshot(CartOf(db.carts, userId), db.foods, userId, db.nextOrderId) == Ok(placed)
    ensures Checkout(db, userId)
            == Ok(db.(carts := DeleteRows(db.carts, CartOf(db.carts, userId)),
                      orders := db.orders + placed,
                      nextOrderId := db.nextOrderId + |placed|))
  {
    DeleteOwnLines(db.carts, userId);
    CheckoutOk(db, userId);
  }

  /** A line whose food is missing stops the checkout with that line's error. */
  lemma CheckoutStops(db: Db, userId: nat, e: Error)
    requires Snapshot(CartOf(db.carts, userId), db.foods, userId, db.nextOrderId) == Err(e)
    ensures Checkout(db, userId) == Err(e)
  {
  }

  /** The cart page lists each food at most once. */
  lemma CartOfDistinctFoods(carts: seq<CartLine>, userId: nat)
    requires OneLinePerFood(carts)
    ensures var lines := CartOf(carts, userId);
            forall i, j :: 0 <= i < j < |lines| ==> lines[i].foodId != lines[j].foodId
  {
    FilterPairwise(carts, OwnedBy(userId), DistinctLines);
    var lines := CartOf(carts, userId);
    forall i, j | 0 <= i < j < |lines| ensures lines[i].foodId != lines[j].foodId {
      assert DistinctLines(lines[i], lines[j]);
      assert lines[i] in carts && lines[j] in carts;
    }
  }

  /** Deleting every line of the user's cart leaves exactly the other users'
      lines, in table order. */
  lemma DeleteOwnLines(carts: seq<CartLine>, userId: nat)
    ensures DeleteRows(carts, CartOf(carts, userId)) == OthersLines(carts, userId)
  {
    FilterCongruent(carts, NotAmong(CartOf(carts, userId)), NotOwnedBy(userId));
  }
}
