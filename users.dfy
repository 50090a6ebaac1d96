/** The in-memory part of data/users.js: the `users` and `products` collections, signing a
    user up with an empty item list, appending an item to a user's `refrigeratedItems`
    (recording a product for a manual entry), and removing every item with a given id.
    The MongoDB collections become fields of `Store`; each operation reads the user
    record, changes its item list and writes the whole record back. */
module Users {
  import opened Wrappers
  import opened Helpers
  import JsText
  import EmailPattern

  /** A MongoDB ObjectId. The store draws new ones from a counter, so no two are equal. */
  datatype ObjectId = ObjectId(n: nat)

  /** An element of a user's `refrigeratedItems`. */
  datatype Item = Item(
    id: ObjectId,
    code: string,
    name: string,
    brand: string,
    category: string,
    quantity: string,
    expirationDate: string)

  /** A document of the `users` collection. */
  datatype User = User(firstName: string, lastName: string, email: string, refrigeratedItems: seq<Item>)

  /** A document of the `products` collection. */
  datatype Product = Product(code: string, name: string, brand: string, category: string)

  const UserNotFoundMsg := "User not found"

  /** The `message` of the `TypeError` raised when `removeItemFromUser` reads the items of a
      user that `findOne` did not find (`null`). The wording is the JavaScript engine's
      (V8, as in Node.js 16.9 and later), not the application's. */
  const NullUserMsg := "Cannot read properties of null (reading 'refrigeratedItems')"

  /** No two items of the list share an id. */
  predicate DistinctIds(items: seq<Item>) {
    forall i, j :: 0 <= i < j < |items| ==> items[i].id != items[j].id
  }

  /** Every item id of the list was drawn before the counter reached `bound`. */
  predicate IdsBelow(items: seq<Item>, bound: nat) {
    forall j :: 0 <= j < |items| ==> items[j].id.n < bound
  }

  /** The list with every item whose id is `itemId` filtered out: it holds exactly the
      items of `items` whose id differs. */
  function Without(items: seq<Item>, itemId: ObjectId): (r: seq<Item>)
    ensures |r| <= |items|
  {
    if items == [] then []
    else (if items[0].id != itemId then [items[0]] else []) + Without(items[1..], itemId)
  }

  /** An item is left after filtering exactly when it was in the list and its id differs. */
  lemma {:induction false} WithoutMembership(items: seq<Item>, itemId: ObjectId, x: Item)
    ensures x in Without(items, itemId) <==> x in items && x.id != itemId
    decreases |items|
  {
    if items != [] {
      WithoutMembership(items[1..], itemId, x);
      assert items == [items[0]] + items[1..];
    }
  }

  /** `a` is `b` with some elements left out, the rest in their order. */
  predicate IsSubsequence<T(==)>(a: seq<T>, b: seq<T>)
    decreases |b|
  {
    a == [] || (b != [] && ((a[0] == b[0] && IsSubsequence(a[1..], b[1..])) || IsSubsequence(a, b[1..])))
  }

  /** Filtering distributes over concatenation. */
  lemma {:induction false} WithoutConcat(a: seq<Item>, b: seq<Item>, itemId: ObjectId)
    ensures Without(a + b, itemId) == Without(a, itemId) + Without(b, itemId)
    decreases |a|
  {
    if a == [] {
      assert a + b == b;
    } else {
      WithoutConcat(a[1..], b, itemId);
      assert (a + b)[0] == a[0];
      assert (a + b)[1..] == a[1..] + b;
    }
  }

  /** Filtering keeps the remaining items in their original relative order. */
  lemma {:induction false} WithoutIsSubsequence(items: seq<Item>, itemId: ObjectId)
    ensures IsSubsequence(Without(items, itemId), items)
    decreases |items|
  {
    if items != [] {
      WithoutIsSubsequence(items[1..], itemId);
      var rest := Without(items[1..], itemId);
      if items[0].id != itemId {
        assert Without(items, itemId) == [items[0]] + rest;
        assert ([items[0]] + rest)[1..] == rest;
      } else {
        assert Without(items, itemId) == rest;
      }
    }
  }

  /** Filtering keeps every copy of an item whose id differs and no copy of one whose id
      is `itemId`. */
  lemma {:induction false} WithoutCounts(items: seq<Item>, itemId: ObjectId, x: Item)
    ensures multiset(Without(items, itemId))[x] == if x.id == itemId then 0 else multiset(items)[x]
    decreases |items|
  {
    if items != [] {
      WithoutCounts(items[1..], itemId, x);
      assert items == [items[0]] + items[1..];
      var head := if items[0].id != itemId then [items[0]] else [];
      assert multiset(Without(items, itemId)) == multiset(head) + multiset(Without(items[1..], itemId));
    }
  }

  /** Filtering leaves the list unchanged exactly when no item has the id. */
  lemma {:induction false} WithoutUnchangedIff(items: seq<Item>, itemId: ObjectId)
    ensures Without(items, itemId) == items <==> forall j :: 0 <= j < |items| ==> items[j].id != itemId
    decreases |items|
  {
    if items != [] {
      WithoutUnchangedIff(items[1..], itemId);
      assert items == [items[0]] + items[1..];
      if items[0].id == itemId {
        assert |Without(items, itemId)| < |items|;
      } else {
        assert forall j :: 1 <= j < |items| ==> items[j] == items[1..][j - 1];
      }
    }
  }

  /** Removing the same id a second time changes nothing. */
  lemma WithoutIdempotent(items: seq<Item>, itemId: ObjectId)
    ensures Without(Without(items, itemId), itemId) == Without(items, itemId)
  {
    var once := Without(items, itemId);
    forall j | 0 <= j < |once| ensures once[j].id != itemId {
      WithoutMembership(items, itemId, once[j]);
    }
    WithoutUnchangedIff(once, itemId);
  }

  /** In a list with distinct ids, filtering keeps the ids distinct. */
  lemma {:induction false} WithoutKeepsDistinct(items: seq<Item>, itemId: ObjectId)
    requires DistinctIds(items)
    ensures DistinctIds(Without(items, itemId))
    decreases |items|
  {
    if items != [] {
      var tail := items[1..];
      assert DistinctIds(tail);
      WithoutKeepsDistinct(tail, itemId);
      var rest := Without(tail, itemId);
      if items[0].id != itemId {
        forall x | x in rest ensures x.id != items[0].id {
          WithoutMembership(tail, itemId, x);
        }
        var r := [items[0]] + rest;
        assert Without(items, itemId) == r;
        assert forall j :: 1 <= j < |r| ==> r[j] == rest[j - 1] && rest[j - 1] in rest;
      }
    }
  }

  /** In a list with distinct ids, filtering removes one item when some item has the
      id and none otherwise. */
  lemma {:induction false} WithoutRemovesAtMostOne(items: seq<Item>, itemId: ObjectId)
    requires DistinctIds(items)
    ensures |Without(items, itemId)| ==
              if exists j :: 0 <= j < |items| && items[j].id == itemId then |items| - 1 else |items|
    decreases |items|
  {
    if items != [] {
      var tail := items[1..];
      assert DistinctIds(tail);
      assert forall k :: 0 <= k < |tail| ==> tail[k] == items[k + 1];
      if items[0].id != itemId {
        WithoutRemovesAtMostOne(tail, itemId);
        assert (exists j :: 0 <= j < |items| && items[j].id == itemId) <==>
               (exists k :: 0 <= k < |tail| && tail[k].id == itemId);
      } else {
        WithoutUnchangedIff(tail, itemId);
      }
    }
  }

  /** The loop of `removeItemFromUser`: walk the items and keep those whose id differs. */
  method FilterOut(items: seq<Item>, itemId: ObjectId) returns (kept: seq<Item>)
    ensures kept == Without(items, itemId)
  {
    kept := [];
    for i := 0 to |items|
      invariant kept == Without(items[..i], itemId)
    {
      WithoutConcat(items[..i], [items[i]], itemId);
      assert items[..i + 1] == items[..i] + [items[i]];
      if items[i].id != itemId {
        kept := kept + [items[i]];
      }
    }
    assert items[..|items|] == items;
  }

  /** The validated sign-up fields. */
  datatype Signup = Signup(firstName: string, lastName: string, email: string, password: string)

  /** The first name is accepted by `checkIsProperFirstOrLastName`. */
  predicate ProperFirstName(v: JsValue) { v.Str? && IsProperName(JsText.Trim(v.s)) }

  /** The email is accepted by `validateEmail`. */
  ghost predicate ProperEmail(v: JsValue, isEmail: string -> bool) {
    IsProperString(v) && isEmail(v.s) && EmailPattern.EmailShape(JsText.Trim(v.s))
  }

  /** The password is accepted by `checkIsProperPassword`. */
  predicate ProperPassword(v: JsValue) { v.Str? && IsStrongPassword(JsText.Trim(v.s)) }

  /** The four validator calls that open `insertUser`, in their order. Validation succeeds
      exactly when each field meets its rules, and keeps the four trimmed values. Otherwise
      the error is that of the first field, in the order first name, last name, email,
      password, that breaks its rules, whatever the later fields hold. */
  function ValidateSignup(firstName: JsValue, lastName: JsValue, email: JsValue, password: JsValue,
                          isEmail: string -> bool): (r: Result<Signup>)
    ensures r.Ok? <==>
      ProperFirstName(firstName) && ProperFirstName(lastName) && ProperEmail(email, isEmail) && ProperPassword(password)
    ensures r.Ok? ==>
      r.value == Signup(JsText.Trim(firstName.s), JsText.Trim(lastName.s), JsText.Trim(email.s), JsText.Trim(password.s))
    ensures !ProperFirstName(firstName) ==>
      r == Err(CheckIsProperFirstOrLastName(firstName, "First Name").msg)
    ensures ProperFirstName(firstName) && !ProperFirstName(lastName) ==>
      r == Err(CheckIsProperFirstOrLastName(lastName, "Last Name").msg)
    ensures ProperFirstName(firstName) && ProperFirstName(lastName) && !ProperEmail(email, isEmail) ==>
      r == Err(ValidateEmail(email, isEmail).msg)
    ensures ProperFirstName(firstName) && ProperFirstName(lastName) && ProperEmail(email, isEmail)
            && !ProperPassword(password) ==>
      r == Err(CheckIsProperPassword(password).msg)
  {
    match CheckIsProperFirstOrLastName(firstName, "First Name")
    case Err(m) => Err(m)
    case Ok(f) =>
      match CheckIsProperFirstOrLastName(lastName, "Last Name")
      case Err(m) => Err(m)
      case Ok(l) =>
        match ValidateEmail(email, isEmail)
        case Err(m) => Err(m)
        case Ok(e) =>
          match CheckIsProperPassword(password)
          case Err(m) => Err(m)
          case Ok(p) => Ok(Signup(f, l, e, p))
  }

  /** The `users` and `products` collections, with the counter new ObjectIds come from. */
  class Store {
    var users: map<ObjectId, User>
    var products: seq<Product>
    var nextId: nat

    /** Every id in the store was drawn before `nextId`, and item ids are distinct
        within each user's list. */
    ghost predicate Valid()
      reads this
    {
      forall u :: u in users ==>
        && u.n < nextId
        && IdsBelow(users[u].refrigeratedItems, nextId)
        && DistinctIds(users[u].refrigeratedItems)
    }

    constructor ()
      ensures Valid()
      ensures users == map[] && products == []
    {
      users := map[];
      products := [];
      nextId := 0;
    }

    /** `insertUser`: validates the four inputs in order (`ValidateSignup`), then creates
        the account through the authentication service (whose outcome is `authError`:
        `None` when it succeeds), then inserts a user record with a fresh id and an empty
        item list. The first failure is the result, and nothing is stored. */
    method InsertUser(firstName: JsValue, lastName: JsValue, email: JsValue, password: JsValue,
                      isEmail: string -> bool, authError: Option<string>)
      returns (r: Result<bool>)
      requires Valid()
      modifies this
      ensures Valid()
      ensures ValidateSignup(firstName, lastName, email, password, isEmail).Err? ==>
        r == Err(ValidateSignup(firstName, lastName, email, password, isEmail).msg)
      ensures ValidateSignup(firstName, lastName, email, password, isEmail).Ok? && authError.Some? ==>
        r == Err(authError.value)
      ensures r.Ok? <==> ValidateSignup(firstName, lastName, email, password, isEmail).Ok? && authError.None?
      ensures r.Ok? ==>
        var s := ValidateSignup(firstName, lastName, email, password, isEmail).value;
        && r.value
        && ObjectId(old(nextId)) !in old(users)
        && users == old(users)[ObjectId(old(nextId)) := User(s.firstName, s.lastName, s.email, [])]
        && products == old(products)
        && nextId == old(nextId) + 1
      ensures r.Err? ==> users == old(users) && products == old(products) && nextId == old(nextId)
    {
      var s := ValidateSignup(firstName, lastName, email, password, isEmail);
      if s.Err? { return Err(s.msg); }
      if authError.Some? { return Err(authError.value); }
      r := InsertUserRecord(s.value.firstName, s.value.lastName, s.value.email);
    }

    /** The `insertOne` of `insertUser`: a new record under a fresh id, with no items. */
    method InsertUserRecord(firstName: string, lastName: string, email: string) returns (r: Result<bool>)
      requires Valid()
      modifies this
      ensures Valid()
      ensures r == Ok(true)
      ensures ObjectId(old(nextId)) !in old(users)
      ensures users == old(users)[ObjectId(old(nextId)) := User(firstName, lastName, email, [])]
      ensures products == old(products) && nextId == old(nextId) + 1
    {
      var id := ObjectId(nextId);
      ghost var before := users;
      users := users[id := User(firstName, lastName, email, [])];
      nextId := nextId + 1;
      forall u | u in users
        ensures u.n < nextId && IdsBelow(users[u].refrigeratedItems, nextId)
        ensures DistinctIds(users[u].refrigeratedItems)
      {
        if u != id { assert users[u] == before[u]; }
      }
      r := Ok(true);
    }

    /** `addItemToUser`: fails with "User not found", changing nothing, when the user id
        does not resolve. Otherwise records a product first when the entry was typed in by
        hand, then appends one item with a fresh id and the given fields to the end of the
        user's list, writes the record back and returns it. */
    method AddItemToUser(userId: ObjectId, code: string, name: string, brand: string, category: string,
                         quantity: string, expirationDate: string, manualEntry: bool)
      returns (r: Result<User>)
      requires Valid()
      modifies this
      ensures Valid()
      ensures userId !in old(users) ==> r == Err(UserNotFoundMsg) && unchanged(this)
      ensures userId in old(users) ==>
        var before := old(users[userId]);
        var item := Item(ObjectId(old(nextId)), code, name, brand, category, quantity, expirationDate);
        && users == old(users)[userId := before.(refrigeratedItems := before.refrigeratedItems + [item])]
        && r == Ok(users[userId])
        && products == (if manualEntry then old(products) + [Product(code, name, brand, category)]
                        else old(products))
        && nextId == old(nextId) + 1
      ensures userId in old(users) ==>
        forall j :: 0 <= j < |old(users[userId].refrigeratedItems)| ==>
          old(users[userId].refrigeratedItems)[j].id != ObjectId(old(nextId))
    {
      if userId !in users { return Err(UserNotFoundMsg); }
      var user := users[userId];
      if manualEntry {
        products := products + [Product(code, name, brand, category)];
      }
      var item := Item(ObjectId(nextId), code, name, brand, category, quantity, expirationDate);
      user := user.(refrigeratedItems := user.refrigeratedItems + [item]);
      nextId := nextId + 1;
      users := users[userId := user];
      r := Ok(user);
    }

    /** `removeItemFromUser`: keeps exactly the items whose id is not `itemId`, in their
        order, writes the record back and returns it. The source does not check that the
        user exists; reading the items of a missing user throws, and nothing changes. */
    method RemoveItemFromUser(userId: ObjectId, itemId: ObjectId) returns (r: Result<User>)
      requires Valid()
      modifies this
      ensures Valid()
      ensures userId !in old(users) ==> r == Err(NullUserMsg) && unchanged(this)
      ensures userId in old(users) ==>
        var before := old(users[userId]);
        && users == old(users)[userId := before.(refrigeratedItems := Without(before.refrigeratedItems, itemId))]
        && r == Ok(users[userId])
        && products == old(products)
        && nextId == old(nextId)
    {
      if userId !in users { return Err(NullUserMsg); }
      var user := users[userId];
      var newArr := FilterOut(user.refrigeratedItems, itemId);
      WithoutKeepsDistinct(user.refrigeratedItems, itemId);
      forall j | 0 <= j < |newArr| ensures newArr[j].id.n < nextId {
        WithoutMembership(user.refrigeratedItems, itemId, newArr[j]);
      }
      user := user.(refrigeratedItems := newArr);
      users := users[userId := user];
      r := Ok(user);
    }
  }
}
