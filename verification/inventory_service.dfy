/** The inventory service (inventory/app.py): the item collection, the ownership
    check the other services call, the item routes, and the cascade that asks the
    product service to delete an item's products before the item itself. */
module InventoryService {
  import opened Common
  import opened Identity

  datatype Item = Item(id: Id, name: string, kind: string, createdDate: string, userId: Id)

  /** A JSON body's `name` and `type` fields, each possibly absent. */
  datatype ItemFields = ItemFields(name: Option<string>, kind: Option<string>)

  /** The product service's status for `/products/delete_all/<id>`, or the
      transport failure instead. */
  datatype CascadeReply = ProductAnswer(status: int) | ProductUnreachable(reason: string)

  datatype Body =
    | Message(text: string)
    | Owned(owned: bool)
    | One(item: Item)
    | Many(items: seq<Item>)
    | ServerError   // an exception nothing catches: the framework answers 500

  datatype Response = Response(status: int, body: Body, items: seq<Item>)

  function ItemKey(it: Item): Id { it.id }

  /** `_id` is unique in the collection. */
  predicate Valid(items: seq<Item>) {
    DistinctKeys(items, ItemKey)
  }

  predicate OwnedBy(it: Item, id: Id, userId: Id) {
    it.id == id && it.userId == userId
  }

  predicate HasOwned(items: seq<Item>, id: Id, userId: Id) {
    exists i :: 0 <= i < |items| && OwnedBy(items[i], id, userId)
  }

  /** `find_one({"_id": id, "user_id": userId})`: the position of the first match. */
  function FindOwned(items: seq<Item>, id: Id, userId: Id): (r: Option<nat>)
    ensures r.Some? <==> HasOwned(items, id, userId)
    ensures r.Some? ==> r.value < |items| && OwnedBy(items[r.value], id, userId)
    ensures r.Some? ==> forall j :: 0 <= j < r.value ==> !OwnedBy(items[j], id, userId)
  {
    FirstMatch(items, (it: Item) => OwnedBy(it, id, userId))
  }

  /** GET /checkInventory/<id>. */
  function CheckInventory(items: seq<Item>, caller: Caller, id: Id): (r: Response)
    ensures r.items == items
    ensures r.status == Unauthorized <==> Resolve(caller).Failure?
    ensures r.status == OK <==> Resolve(caller).Success? && HasOwned(items, id, Resolve(caller).value.userId)
    ensures r.status == Forbidden <==> Resolve(caller).Success? && !HasOwned(items, id, Resolve(caller).value.userId)
    ensures r.status == OK ==> r.body == Owned(true)
    ensures r.status == Forbidden ==> r.body == Owned(false)
  {
    match Resolve(caller)
    case Failure(e) => Response(Unauthorized, Message(e), items)
    case Success(who) =>
      if FindOwned(items, id, who.userId).Some? then Response(OK, Owned(true), items)
      else Response(Forbidden, Owned(false), items)
  }

  /** GET /items: the caller's items, in collection order. */
  function GetItems(items: seq<Item>, caller: Caller): (r: Response)
    ensures r.items == items
    ensures r.status == Unauthorized <==> Resolve(caller).Failure?
    ensures r.status == OK <==> Resolve(caller).Success?
    ensures r.status == OK ==>
      && r.body.Many?
      && (forall i :: 0 <= i < |r.body.items| ==>
            r.body.items[i] in items && r.body.items[i].userId == Resolve(caller).value.userId)
      && (forall i :: 0 <= i < |items| && items[i].userId == Resolve(caller).value.userId ==>
            items[i] in r.body.items)
      && r.body.items == Filter(items, (it: Item) => it.userId == Resolve(caller).value.userId)
  {
    match Resolve(caller)
    case Failure(e) => Response(Unauthorized, Message(e), items)
    case Success(who) => Response(OK, Many(Filter(items, (it: Item) => it.userId == who.userId)), items)
  }

  /** GET /items/<id>. */
  function GetItem(items: seq<Item>, caller: Caller, id: Id): (r: Response)
    ensures r.items == items
    ensures r.status == Unauthorized <==> Resolve(caller).Failure?
    ensures r.status == OK <==> Resolve(caller).Success? && HasOwned(items, id, Resolve(caller).value.userId)
    ensures r.status == NotFound <==> Resolve(caller).Success? && !HasOwned(items, id, Resolve(caller).value.userId)
    ensures r.status == OK ==> r.body.One? && r.body.item in items && OwnedBy(r.body.item, id, Resolve(caller).value.userId)
  {
    match Resolve(caller)
    case Failure(e) => Response(Unauthorized, Message(e), items)
    case Success(who) =>
      match FindOwned(items, id, who.userId)
      case Some(k) => Response(OK, One(items[k]), items)
      case None => Response(NotFound, Message("Item not found or unauthorized"), items)
  }

  /** POST /createItem: identity is resolved before the body is looked at. */
  function CreateItem(items: seq<Item>, caller: Caller, data: Option<ItemFields>, now: string): (r: Response)
    ensures r.status == Unauthorized <==> Resolve(caller).Failure?
    ensures r.status == BadRequest <==>
      Resolve(caller).Success? && (data.None? || data.value.name.None? || data.value.kind.None?)
    ensures r.status == Created <==>
      Resolve(caller).Success? && data.Some? && data.value.name.Some? && data.value.kind.Some?
    ensures r.status != Created ==> r.items == items
    ensures r.status == Created ==>
      |r.items| == |items| + 1 && r.items[..|items|] == items
      && var it := r.items[|items|];
         && r.body == One(it)
         && it.name == data.value.name.value && it.kind == data.value.kind.value
         && it.createdDate == now && it.userId == Resolve(caller).value.userId
         && forall i :: 0 <= i < |items| ==> items[i].id != it.id
  {
    match Resolve(caller)
    case Failure(e) => Response(Unauthorized, Message(e), items)
    case Success(who) =>
      if data.None? || data.value.name.None? || data.value.kind.None? then
        Response(BadRequest, Message("Invalid input data: 'name' and 'type' are required fields"), items)
      else
        var it := Item(NextId(items, ItemKey), data.value.name.value, data.value.kind.value, now, who.userId);
        assert (items + [it])[..|items|] == items;
        Response(Created, One(it), items + [it])
  }

  /** `update_one({"_id": id}, {"$set": {"name": ..., "type": ...}})`. */
  function Rename(items: seq<Item>, id: Id, name: string, kind: string): (r: seq<Item>)
    ensures |r| == |items|
    ensures forall i :: 0 <= i < |items| && items[i].id == id ==> r[i] == items[i].(name := name, kind := kind)
    ensures forall i :: 0 <= i < |items| && items[i].id != id ==> r[i] == items[i]
  {
    seq(|items|, i requires 0 <= i < |items| =>
      if items[i].id == id then items[i].(name := name, kind := kind) else items[i])
  }

  /** PUT /items/<id>: ownership is checked before the body is looked at, so a
      foreign item answers 404 whatever the body holds. */
  function UpdateItem(items: seq<Item>, caller: Caller, id: Id, data: Option<ItemFields>): (r: Response)
    ensures r.status == Unauthorized <==> Resolve(caller).Failure?
    ensures r.status == NotFound <==> Resolve(caller).Success? && !HasOwned(items, id, Resolve(caller).value.userId)
    ensures r.status == OK <==>
      Resolve(caller).Success? && HasOwned(items, id, Resolve(caller).value.userId)
      && data.Some? && data.value.name.Some? && data.value.kind.Some?
    ensures r.status == InternalError <==>
      Resolve(caller).Success? && HasOwned(items, id, Resolve(caller).value.userId) && data.None?
    ensures r.status == BadRequest <==>
      Resolve(caller).Success? && HasOwned(items, id, Resolve(caller).value.userId)
      && data.Some? && (data.value.name.None? || data.value.kind.None?)
    ensures r.status != OK ==> r.items == items
    ensures r.status == OK ==>
      && r.items == Rename(items, id, data.value.name.value, data.value.kind.value)
      && r.body.One?
      && r.body.item.id == id
      && r.body.item.userId == Resolve(caller).value.userId
      && r.body.item.name == data.value.name.value
      && r.body.item.kind == data.value.kind.value
      && exists i :: 0 <= i < |items| && OwnedBy(items[i], id, Resolve(caller).value.userId)
           && r.body.item.createdDate == items[i].createdDate
  {
    match Resolve(caller)
    case Failure(e) => Response(Unauthorized, Message(e), items)
    case Success(who) =>
      match FindOwned(items, id, who.userId)
      case None => Response(NotFound, Message("Item not found or unauthorized"), items)
      case Some(k) =>
        if data.None? then Response(InternalError, ServerError, items)
        else if data.value.name.None? || data.value.kind.None? then
          Response(BadRequest, Message("Invalid input data: 'name' and 'type' are required fields"), items)
        else
          var name := data.value.name.value;
          var kind := data.value.kind.value;
          Response(OK, One(items[k].(name := name, kind := kind)), Rename(items, id, name, kind))
  }

  /** `delete_all_product`: the error the cascade reports, `None` when it succeeded.
      Only a 200 from the product service is success; its 404 ("nothing deleted")
      is an error like any other. */
  function CascadeError(header: Option<string>, reply: CascadeReply): (r: Option<string>)
    ensures r.None? <==> HeaderPresent(header) && reply == ProductAnswer(OK)
  {
    if !HeaderPresent(header) then Some(TokenMissing)
    else match reply
      case ProductUnreachable(reason) => Some("Error occurred while contacting product service: " + reason)
      case ProductAnswer(status) =>
        if status == OK then None
        else if status == NotFound then Some("No products found for the specified inventory or unauthorized access")
        else if status == Unauthorized then Some(TokenInvalid)
        else Some("Error: Unexpected error")
  }

  /** DELETE /items/<id>: cascade first, then `delete_one({"_id": id, "user_id": ...})`. */
  function DeleteItem(items: seq<Item>, caller: Caller, id: Id, cascade: CascadeReply): (r: Response)
    ensures r.status == Unauthorized <==> Resolve(caller).Failure?
    ensures r.status == InternalError <==> Resolve(caller).Success? && cascade != ProductAnswer(OK)
    ensures r.status == NoContent <==>
      Resolve(caller).Success? && cascade == ProductAnswer(OK) && HasOwned(items, id, Resolve(caller).value.userId)
    ensures r.status == NotFound <==>
      Resolve(caller).Success? && cascade == ProductAnswer(OK) && !HasOwned(items, id, Resolve(caller).value.userId)
    ensures r.status != NoContent ==> r.items == items
    ensures r.status == NoContent ==>
      exists k :: 0 <= k < |items| && OwnedBy(items[k], id, Resolve(caller).value.userId)
        && r.items == items[..k] + items[k + 1..]
  {
    match Resolve(caller)
    case Failure(e) => Response(Unauthorized, Message(e), items)
    case Success(who) =>
      match CascadeError(caller.header, cascade)
      case Some(e) => Response(InternalError, Message("Failed to delete related products: " + e), items)
      case None =>
        match FindOwned(items, id, who.userId)
        case None => Response(NotFound, Message("Item not found or unauthorized"), items)
        case Some(k) =>
          Response(NoContent, Message("Item and all related products deleted successfully"), items[..k] + items[k + 1..])
  }

  /** With `_id` unique, a successful delete removes exactly the caller's item
      and keeps every other record. */
  lemma DeleteItemRemovesExactlyTheItem(items: seq<Item>, caller: Caller, id: Id, cascade: CascadeReply)
    requires Valid(items)
    requires DeleteItem(items, caller, id, cascade).status == NoContent
    ensures var r := DeleteItem(items, caller, id, cascade).items;
      && |r| == |items| - 1
      && Valid(r)
      && (forall i :: 0 <= i < |items| ==> (items[i] in r <==> items[i].id != id))
      && (forall x :: x in r ==> x in items)
  {
  }

  /** The listing after a successful creation is the listing before it with
      the new item at the end; other callers' listings do not change. */
  lemma {:induction false} CreatedItemIsListedLast(items: seq<Item>, caller: Caller, data: Option<ItemFields>,
                                                  now: string, other: Caller)
    requires CreateItem(items, caller, data, now).status == Created
    requires Resolve(other).Success?
    ensures var after := CreateItem(items, caller, data, now);
      var before := GetItems(items, other).body.items;
      GetItems(after.items, other).body.items ==
        if Resolve(other).value.userId == Resolve(caller).value.userId then before + [after.body.item]
        else before
  {
    var after := CreateItem(items, caller, data, now);
    var it := after.body.item;
    var keep := (x: Item) => x.userId == Resolve(other).value.userId;
    assert after.items == items + [it];
    FilterAppend(items, [it], keep);
    assert Filter([it], keep) == (if keep(it) then [it] else []) by {
      assert [it][1..] == [];
    }
  }

  /** Creating and updating keep `_id` unique (deleting does too, by
      `DeleteItemRemovesExactlyTheItem`). */
  lemma CreateAndUpdateKeepValid(items: seq<Item>, caller: Caller, id: Id, data: Option<ItemFields>, now: string)
    requires Valid(items)
    ensures Valid(CreateItem(items, caller, data, now).items)
    ensures Valid(UpdateItem(items, caller, id, data).items)
  {
  }
}
