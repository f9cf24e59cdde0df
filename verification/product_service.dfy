/** The product service (product/app.py): buy and sell records of an inventory
    item, the routes that create, list and delete them, and the buy/sell/profit
    summary. Every route resolves the caller's identity first; the
    inventory-scoped ones then ask the inventory service whether the caller owns
    the item. */
module ProductService {
  import opened Common
  import opened Identity
  import Ownership

  /** A stored product. `price` and `quantity` are optional because a document
      of the collection may lack them; the routes here always write both. */
  datatype Product = Product(
    id: Id,
    name: string,
    price: Option<int>,
    quantity: Option<int>,
    kind: string,          // "buy" or "sell" when written by CreateProduct
    inventoryId: Id,
    userId: Id,
    date: string)

  /** A JSON body's fields for a new product, each possibly absent. */
  datatype NewProduct = NewProduct(
    name: Option<string>,
    price: Option<int>,
    quantity: Option<int>,
    kind: Option<string>,
    date: Option<string>)

  /** A product as the listing route shows it: no `user_id`, no `date`. */
  datatype View = View(id: Id, name: string, price: int, quantity: int, kind: string, inventoryId: Id)

  datatype Body =
    | Message(text: string)
    | Stored(product: Product)
    | Listing(views: seq<View>)
    | Totals(totalBuy: int, totalSell: int, totalProfit: int)
    | ServerError   // an exception nothing catches: the framework answers 500

  datatype Response = Response(status: int, body: Body, products: seq<Product>)

  const Buy: string := "buy"
  const Sell: string := "sell"

  function ProductKey(p: Product): Id { p.id }

  /** `_id` is unique in the collection. */
  predicate Valid(products: seq<Product>) {
    DistinctKeys(products, ProductKey)
  }

  /** The filter `{"user_id": userId, "inventory_id": inventoryId}`. */
  predicate Matches(p: Product, userId: Id, inventoryId: Id) {
    p.userId == userId && p.inventoryId == inventoryId
  }

  predicate HasMatching(products: seq<Product>, userId: Id, inventoryId: Id) {
    exists i :: 0 <= i < |products| && Matches(products[i], userId, inventoryId)
  }

  function Matching(products: seq<Product>, userId: Id, inventoryId: Id): (r: seq<Product>)
    ensures forall i :: 0 <= i < |r| ==> r[i] in products && Matches(r[i], userId, inventoryId)
    ensures forall i :: 0 <= i < |products| && Matches(products[i], userId, inventoryId) ==> products[i] in r
    ensures |r| == 0 <==> !HasMatching(products, userId, inventoryId)
    ensures multiset(r) <= multiset(products)
  {
    var r := Filter(products, (p: Product) => Matches(p, userId, inventoryId));
    FilterIsSubMultiset(products, (p: Product) => Matches(p, userId, inventoryId));
    assert |r| > 0 ==> exists i :: 0 <= i < |products| && products[i] == r[0];
    r
  }

  /** The create body has all four required fields. */
  predicate HasRequiredFields(data: Option<NewProduct>) {
    data.Some? && data.value.name.Some? && data.value.price.Some?
    && data.value.quantity.Some? && data.value.kind.Some?
  }

  /** POST /createProduct/<inventoryId>: the body is validated before identity
      is resolved, identity before ownership. */
  function CreateProduct(products: seq<Product>, caller: Caller, check: Ownership.CheckReply,
                         inventoryId: Id, data: Option<NewProduct>, now: string): (r: Response)
    ensures r.status == BadRequest <==>
      !HasRequiredFields(data) || data.value.kind.value !in {Buy, Sell}
    ensures r.status == Unauthorized <==>
      HasRequiredFields(data) && data.value.kind.value in {Buy, Sell} && Resolve(caller).Failure?
    ensures r.status == NotFound <==>
      HasRequiredFields(data) && data.value.kind.value in {Buy, Sell} && Resolve(caller).Success?
      && Ownership.Interpret(check) == Success(false)
    ensures r.status == Created <==>
      HasRequiredFields(data) && data.value.kind.value in {Buy, Sell} && Resolve(caller).Success?
      && Ownership.Interpret(check) == Success(true)
    ensures r.status == InternalError <==>
      HasRequiredFields(data) && data.value.kind.value in {Buy, Sell} && Resolve(caller).Success?
      && Ownership.Interpret(check).Failure?
    ensures r.status != Created ==> r.products == products
    ensures r.status == Created ==>
      |r.products| == |products| + 1 && r.products[..|products|] == products
      && var p := r.products[|products|];
         && r.body == Stored(p)
         && p.name == data.value.name.value
         && p.price == data.value.price && p.quantity == data.value.quantity
         && p.kind == data.value.kind.value
         && p.inventoryId == inventoryId
         && p.userId == Resolve(caller).value.userId
         && p.date == data.value.date.GetOr(now)
         && forall i :: 0 <= i < |products| ==> products[i].id != p.id
  {
    if !HasRequiredFields(data) then
      Response(BadRequest, Message("Invalid input data. Required fields: 'name', 'price', 'quantity', 'type'."), products)
    else if data.value.kind.value != Buy && data.value.kind.value != Sell then
      Response(BadRequest, Message("Type must be either 'buy' or 'sell'."), products)
    else match Resolve(caller)
      case Failure(e) => Response(Unauthorized, Message(e), products)
      case Success(who) =>
        match Ownership.Interpret(check)
        case Failure(_) => Response(InternalError, ServerError, products)
        case Success(owned) =>
          if !owned then Response(NotFound, Message("Inventory item does not exist or unauthorized."), products)
          else
            var d := data.value;
            var p := Product(NextId(products, ProductKey), d.name.value, d.price, d.quantity, d.kind.value,
                             inventoryId, who.userId, d.date.GetOr(now));
            assert (products + [p])[..|products|] == products;
            Response(Created, Stored(p), products + [p])
  }

  /** The listing's projection of each record; a record without `price` or
      `quantity` makes the projection raise. */
  function Project(s: seq<Product>): (r: Result<seq<View>, string>)
    ensures r.Success? <==> forall i :: 0 <= i < |s| ==> s[i].price.Some? && s[i].quantity.Some?
    ensures r.Success? ==>
      |r.value| == |s|
      && forall i :: 0 <= i < |s| ==>
           r.value[i] == View(s[i].id, s[i].name, s[i].price.value, s[i].quantity.value, s[i].kind, s[i].inventoryId)
  {
    if |s| == 0 then Success([])
    else if s[0].price.None? || s[0].quantity.None? then Failure("KeyError")
    else match Project(s[1..])
      case Failure(e) =>
        assert forall i :: 1 <= i < |s| ==> s[i] == s[1..][i - 1];
        Failure(e)
      case Success(rest) =>
        var p := s[0];
        Success([View(p.id, p.name, p.price.value, p.quantity.value, p.kind, p.inventoryId)] + rest)
  }

  /** GET /products/<inventoryId>: an empty result is 404, never an empty list. */
  function GetProducts(products: seq<Product>, caller: Caller, check: Ownership.CheckReply,
                       inventoryId: Id): (r: Response)
    ensures r.products == products
    ensures r.status == Unauthorized <==> Resolve(caller).Failure?
    ensures r.status == Forbidden <==> Resolve(caller).Success? && Ownership.Interpret(check) == Success(false)
    ensures r.status == OK || r.status == NotFound ==>
      Resolve(caller).Success? && Ownership.Interpret(check) == Success(true)
    ensures r.status == NotFound <==>
      Resolve(caller).Success? && Ownership.Interpret(check) == Success(true)
      && !HasMatching(products, Resolve(caller).value.userId, inventoryId)
    ensures r.status == InternalError <==>
      Resolve(caller).Success? &&
      (|| Ownership.Interpret(check).Failure?
       || (&& Ownership.Interpret(check) == Success(true)
           && var m := Matching(products, Resolve(caller).value.userId, inventoryId);
              exists i :: 0 <= i < |m| && (m[i].price.None? || m[i].quantity.None?)))
    ensures r.status == OK <==>
      Resolve(caller).Success? && Ownership.Interpret(check) == Success(true)
      && HasMatching(products, Resolve(caller).value.userId, inventoryId)
      && forall i :: 0 <= i < |products| && Matches(products[i], Resolve(caller).value.userId, inventoryId) ==>
           products[i].price.Some? && products[i].quantity.Some?
    ensures r.status == OK ==>
      var m := Matching(products, Resolve(caller).value.userId, inventoryId);
      && r.body.Listing?
      && |r.body.views| == |m| > 0
      && forall i :: 0 <= i < |m| ==>
           && m[i].price.Some? && m[i].quantity.Some?
           && r.body.views[i] == View(m[i].id, m[i].name, m[i].price.value, m[i].quantity.value, m[i].kind, inventoryId)
  {
    match Resolve(caller)
    case Failure(e) => Response(Unauthorized, Message(e), products)
    case Success(who) =>
      match Ownership.Interpret(check)
      case Failure(_) => Response(InternalError, ServerError, products)
      case Success(owned) =>
        if !owned then Response(Forbidden, Message("Unauthorized or inventory item not found"), products)
        else
          var m := Matching(products, who.userId, inventoryId);
          match Project(m)
          case Failure(_) => Response(InternalError, ServerError, products)
          case Success(views) =>
            if |views| == 0 then Response(NotFound, Message("No products found for this inventory"), products)
            else Response(OK, Listing(views), products)
  }

  predicate OwnedProduct(p: Product, id: Id, userId: Id) {
    p.id == id && p.userId == userId
  }

  /** `find_one({"_id": id, "user_id": userId})`: the position of the first match. */
  function FindOwned(products: seq<Product>, id: Id, userId: Id): (r: Option<nat>)
    ensures r.Some? <==> exists i :: 0 <= i < |products| && OwnedProduct(products[i], id, userId)
    ensures r.Some? ==> r.value < |products| && OwnedProduct(products[r.value], id, userId)
    ensures r.Some? ==> forall j :: 0 <= j < r.value ==> !OwnedProduct(products[j], id, userId)
  {
    FirstMatch(products, (p: Product) => OwnedProduct(p, id, userId))
  }

  /** DELETE /deleteProduct/<id>: no ownership call, only the owner filter. */
  function DeleteProduct(products: seq<Product>, caller: Caller, id: Id): (r: Response)
    ensures r.status == Unauthorized <==> Resolve(caller).Failure?
    ensures r.status == OK <==>
      Resolve(caller).Success?
      && exists i :: 0 <= i < |products| && OwnedProduct(products[i], id, Resolve(caller).value.userId)
    ensures r.status == NotFound <==>
      Resolve(caller).Success?
      && forall i :: 0 <= i < |products| ==> !OwnedProduct(products[i], id, Resolve(caller).value.userId)
    ensures r.status != OK ==> r.products == products
    ensures r.status == OK ==>
      exists k :: 0 <= k < |products| && OwnedProduct(products[k], id, Resolve(caller).value.userId)
        && r.products == products[..k] + products[k + 1..]
  {
    match Resolve(caller)
    case Failure(e) => Response(Unauthorized, Message(e), products)
    case Success(who) =>
      match FindOwned(products, id, who.userId)
      case None => Response(NotFound, Message("Product not found or unauthorized"), products)
      case Some(k) => Response(OK, Message("Product deleted successfully"), products[..k] + products[k + 1..])
  }

  /** GET /products/delete_all/<inventoryId>: `delete_many` on the owner and item
      filter; deleting nothing answers 404. */
  function DeleteAll(products: seq<Product>, caller: Caller, check: Ownership.CheckReply,
                     inventoryId: Id): (r: Response)
    ensures r.status == Unauthorized <==> Resolve(caller).Failure?
    ensures r.status == InternalError <==> Resolve(caller).Success? && Ownership.Interpret(check).Failure?
    ensures r.status == OK <==>
      Resolve(caller).Success? && Ownership.Interpret(check) == Success(true)
      && HasMatching(products, Resolve(caller).value.userId, inventoryId)
    ensures r.status == NotFound <==>
      Resolve(caller).Success?
      && (|| Ownership.Interpret(check) == Success(false)
          || (Ownership.Interpret(check) == Success(true)
              && !HasMatching(products, Resolve(caller).value.userId, inventoryId)))
    ensures r.status != OK ==> r.products == products
    ensures r.status == OK ==>
      && r.products == Filter(products, (p: Product) => !Matches(p, Resolve(caller).value.userId, inventoryId))
      && |r.products| < |products|
      && (forall i :: 0 <= i < |r.products| ==>
            r.products[i] in products && !Matches(r.products[i], Resolve(caller).value.userId, inventoryId))
      && (forall i :: 0 <= i < |products| && !Matches(products[i], Resolve(caller).value.userId, inventoryId) ==>
            products[i] in r.products)
  {
    match Resolve(caller)
    case Failure(e) => Response(Unauthorized, Message(e), products)
    case Success(who) =>
      match Ownership.Interpret(check)
      case Failure(_) => Response(InternalError, ServerError, products)
      case Success(owned) =>
        if !owned then Response(NotFound, Message("Inventory not found or unauthorized access"), products)
        else
          var rest := Filter(products, (p: Product) => !Matches(p, who.userId, inventoryId));
          if |rest| < |products| then
            Response(OK, Message("Deleted products from inventory"), rest)
          else
            Response(NotFound, Message("No products found for the specified inventory or unauthorized access"), products)
  }

  /** `price * quantity`, with an absent field read as 0. */
  function Value(p: Product): int {
    p.price.GetOr(0) * p.quantity.GetOr(0)
  }

  /** The reference total: the sum of `Value` over the records of type `kind`. */
  function KindTotal(s: seq<Product>, kind: string): int {
    if |s| == 0 then 0
    else KindTotal(s[..|s| - 1], kind) + (if s[|s| - 1].kind == kind then Value(s[|s| - 1]) else 0)
  }

  /** GET /products/summary/<inventoryId>: one pass over the matching records. */
  method SpendingSummary(products: seq<Product>, caller: Caller, check: Ownership.CheckReply, inventoryId: Id)
    returns (status: int, body: Body)
    ensures status == Unauthorized <==> Resolve(caller).Failure?
    ensures status == NotFound <==> Resolve(caller).Success? && Ownership.Interpret(check) == Success(false)
    ensures status == InternalError <==> Resolve(caller).Success? && Ownership.Interpret(check).Failure?
    ensures status == OK <==> Resolve(caller).Success? && Ownership.Interpret(check) == Success(true)
    ensures status != OK ==> !body.Totals?
    ensures status == OK ==>
      var m := Matching(products, Resolve(caller).value.userId, inventoryId);
      && body.Totals?
      && body.totalBuy == KindTotal(m, Buy)
      && body.totalSell == KindTotal(m, Sell)
      && body.totalProfit == body.totalSell - body.totalBuy
  {
    var resolved := Resolve(caller);
    if resolved.Failure? {
      return Unauthorized, Message(resolved.error);
    }
    var owned := Ownership.Interpret(check);
    if owned.Failure? {
      return InternalError, ServerError;
    }
    if !owned.value {
      return NotFound, Message("Inventory item does not exist or unauthorized.");
    }
    var m := Matching(products, resolved.value.userId, inventoryId);
    var totalBuy, totalSell := 0, 0;
    var i := 0;
    while i < |m|
      invariant 0 <= i <= |m|
      invariant totalBuy == KindTotal(m[..i], Buy)
      invariant totalSell == KindTotal(m[..i], Sell)
    {
      assert m[..i + 1][..i] == m[..i];
      var p := m[i];
      if p.kind == Buy {
        totalBuy := totalBuy + p.price.GetOr(0) * p.quantity.GetOr(0);
      } else if p.kind == Sell {
        totalSell := totalSell + p.price.GetOr(0) * p.quantity.GetOr(0);
      }
      i := i + 1;
    }
    assert m[..|m|] == m;
    return OK, Totals(totalBuy, totalSell, totalSell - totalBuy);
  }

  /** The total over a concatenation is the sum of the totals. */
  lemma {:induction false} KindTotalAppend(a: seq<Product>, b: seq<Product>, kind: string)
    ensures KindTotal(a + b, kind) == KindTotal(a, kind) + KindTotal(b, kind)
    decreases |b|
  {
    if |b| == 0 {
      assert a + b == a;
    } else {
      assert (a + b)[..|a + b| - 1] == a + b[..|b| - 1];
      KindTotalAppend(a, b[..|b| - 1], kind);
    }
  }

  /** Records of another type contribute nothing to a total. */
  lemma {:induction false} KindTotalOfOtherKinds(s: seq<Product>, kind: string)
    requires forall i :: 0 <= i < |s| ==> s[i].kind != kind
    ensures KindTotal(s, kind) == 0
  {
    if |s| > 0 {
      KindTotalOfOtherKinds(s[..|s| - 1], kind);
    }
  }

  /** Inserting records of neither type anywhere leaves both summary totals unchanged. */
  lemma OtherKindsLeaveTotalsUnchanged(a: seq<Product>, extra: seq<Product>, b: seq<Product>)
    requires forall i :: 0 <= i < |extra| ==> extra[i].kind != Buy && extra[i].kind != Sell
    ensures KindTotal(a + extra + b, Buy) == KindTotal(a + b, Buy)
    ensures KindTotal(a + extra + b, Sell) == KindTotal(a + b, Sell)
  {
    KindTotalOfOtherKinds(extra, Buy);
    KindTotalOfOtherKinds(extra, Sell);
    KindTotalAppend(a + extra, b, Buy);
    KindTotalAppend(a, extra, Buy);
    KindTotalAppend(a, b, Buy);
    KindTotalAppend(a + extra, b, Sell);
    KindTotalAppend(a, extra, Sell);
    KindTotalAppend(a, b, Sell);
  }

  /** A product created in an item adds `price * quantity` to that item's total of
      its type, for its owner, and changes no other total. */
  lemma CreatedProductCountsInSummary(products: seq<Product>, caller: Caller, check: Ownership.CheckReply,
                                      inventoryId: Id, data: Option<NewProduct>, now: string,
                                      userId: Id, inv: Id, kind: string)
    requires CreateProduct(products, caller, check, inventoryId, data, now).status == Created
    ensures var after := CreateProduct(products, caller, check, inventoryId, data, now).products;
      var who := Resolve(caller).value.userId;
      KindTotal(Matching(after, userId, inv), kind)
        == KindTotal(Matching(products, userId, inv), kind)
           + (if userId == who && inv == inventoryId && kind == data.value.kind.value
              then data.value.price.value * data.value.quantity.value else 0)
  {
    var after := CreateProduct(products, caller, check, inventoryId, data, now).products;
    var p := after[|products|];
    assert after == products + [p];
    var keep := (q: Product) => Matches(q, userId, inv);
    FilterAppend(products, [p], keep);
    assert Filter([p], keep) == (if Matches(p, userId, inv) then [p] else []) by {
      assert [p][1..] == [];
    }
    KindTotalAppend(Matching(products, userId, inv), Filter([p], keep), kind);
  }

  /** A worked example: buys 10 at 2 and 5 at 1, a sell of 20 at 1. */
  lemma SummaryExample(u: Id, inv: Id)
    ensures var s := [Product(1, "a", Some(10), Some(2), Buy, inv, u, ""),
                      Product(2, "b", Some(5), Some(1), Buy, inv, u, ""),
                      Product(3, "c", Some(20), Some(1), Sell, inv, u, "")];
      KindTotal(s, Buy) == 25 && KindTotal(s, Sell) == 20 && KindTotal(s, Sell) - KindTotal(s, Buy) == -5
  {
    var s := [Product(1, "a", Some(10), Some(2), Buy, inv, u, ""),
              Product(2, "b", Some(5), Some(1), Buy, inv, u, ""),
              Product(3, "c", Some(20), Some(1), Sell, inv, u, "")];
    assert s[..|s| - 1] == s[..2] && s[..2][..1] == s[..1] && s[..1][..0] == [];
    assert KindTotal(s[..1], Buy) == 20 && KindTotal(s[..1], Sell) == 0;
    assert KindTotal(s[..2], Buy) == 25 && KindTotal(s[..2], Sell) == 0;
  }

  /** Every route keeps `_id` unique. */
  lemma CreateKeepsValid(products: seq<Product>, caller: Caller, check: Ownership.CheckReply,
                         inventoryId: Id, data: Option<NewProduct>, now: string)
    requires Valid(products)
    ensures Valid(CreateProduct(products, caller, check, inventoryId, data, now).products)
  {
  }

  lemma DeleteKeepsValid(products: seq<Product>, caller: Caller, check: Ownership.CheckReply,
                         inventoryId: Id, id: Id)
    requires Valid(products)
    ensures Valid(DeleteProduct(products, caller, id).products)
    ensures Valid(DeleteAll(products, caller, check, inventoryId).products)
  {
    var d := DeleteProduct(products, caller, id);
    if d.status == OK {
      var k :| 0 <= k < |products| && OwnedProduct(products[k], id, Resolve(caller).value.userId)
               && d.products == products[..k] + products[k + 1..];
      RemoveAtKeepsDistinctKeys(products, k, ProductKey);
    }
    var a := DeleteAll(products, caller, check, inventoryId);
    if a.status == OK {
      var who := Resolve(caller).value;
      FilterKeepsDistinctKeys(products, (p: Product) => !Matches(p, who.userId, inventoryId), ProductKey);
    }
  }
}
