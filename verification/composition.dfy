/** The services wired together: each peer call is answered by the model of the
    service it goes to, over that service's current collection. This is where the
    facts that span two source files are stated. */
module Composition {
  import opened Common
  import opened Identity
  import Ownership
  import UserService
  import InventoryService
  import ProductService
  import ChartService

  /* ---------- identity through the user service ---------- */

  /** What `/user_id` answers, as the caller's resolver reads it. */
  function UserReplyOf(users: seq<UserService.User>, header: Option<string>, crypto: UserService.Crypto): UserReply {
    var r := UserService.UserId(users, header, crypto);
    UserAnswer(r.status, if r.body.Profile? then r.body.who else Who(0, None, None))
  }

  function CallerOf(users: seq<UserService.User>, header: Option<string>, crypto: UserService.Crypto): Caller {
    Caller(header, UserReplyOf(users, header, crypto))
  }

  /** A request is authenticated exactly when its header is present, decodes, and
      names a stored user; the identity is that user's. The three failures keep
      their distinct messages. */
  lemma ResolveThroughUserService(users: seq<UserService.User>, header: Option<string>, crypto: UserService.Crypto)
    ensures var r := Resolve(CallerOf(users, header, crypto));
      && (r.Success? <==>
            HeaderPresent(header) && crypto.decode(header.value).Some?
            && exists i :: 0 <= i < |users| && users[i].id == crypto.decode(header.value).value)
      && (r.Success? ==>
            exists u :: u in users && u.id == crypto.decode(header.value).value
              && r.value == Who(u.id, u.username, u.email))
      && (!HeaderPresent(header) ==> r == Failure(TokenMissing))
      && (HeaderPresent(header) && crypto.decode(header.value).None? ==> r == Failure(TokenInvalid))
      && (HeaderPresent(header) && crypto.decode(header.value).Some?
          && (forall i :: 0 <= i < |users| ==> users[i].id != crypto.decode(header.value).value)
          ==> r == Failure(UserNotFound))
  {
  }

  /** Looking a user up by id finds the same identity before and after a token
      update, since tokens are not part of the identity. */
  lemma FindByIdIgnoresTokens(users: seq<UserService.User>, id: Id, token: Option<string>, x: Id)
    ensures var a := UserService.FindById(UserService.SetToken(users, id, token), x);
      var b := UserService.FindById(users, x);
      && a.Some? == b.Some?
      && (a.Some? ==> a.value.id == b.value.id && a.value.username == b.value.username
                      && a.value.email == b.value.email)
  {
  }

  /** Logout clears only the stored mirror: every header resolves afterwards
      exactly as it did before, the logged-out one included. */
  lemma LogoutDoesNotRevoke(users: seq<UserService.User>, header: Option<string>, probe: Option<string>,
                            crypto: UserService.Crypto)
    ensures var after := UserService.Logout(users, header, crypto).users;
      Resolve(CallerOf(after, probe, crypto)) == Resolve(CallerOf(users, probe, crypto))
  {
    if HeaderPresent(header) && crypto.decode(header.value).Some?
       && HeaderPresent(probe) && crypto.decode(probe.value).Some? {
      FindByIdIgnoresTokens(users, crypto.decode(header.value).value, None, crypto.decode(probe.value).value);
    }
  }

  /* ---------- ownership through the inventory service ---------- */

  /** What `/checkInventory/<id>` answers, as the product and chart services read it. */
  function CheckReplyOf(items: seq<InventoryService.Item>, caller: Caller, id: Id): Ownership.CheckReply {
    Ownership.CheckAnswer(InventoryService.CheckInventory(items, caller, id).status)
  }

  /** The ownership check holds exactly for the caller's own existing item; an
      authentication failure at the inventory service makes the check raise. */
  lemma OwnershipThroughInventory(items: seq<InventoryService.Item>, caller: Caller, id: Id)
    ensures var r := Ownership.Interpret(CheckReplyOf(items, caller, id));
      && (r == Success(true) <==>
            Resolve(caller).Success? && InventoryService.HasOwned(items, id, Resolve(caller).value.userId))
      && (r == Success(false) <==>
            Resolve(caller).Success? && !InventoryService.HasOwned(items, id, Resolve(caller).value.userId))
      && (r.Failure? <==> Resolve(caller).Failure?)
  {
  }

  /** An item that exists but belongs to someone else is indistinguishable from
      one that does not exist: check, get, update and delete answer with the
      same status. */
  lemma ForeignItemLooksAbsent(items: seq<InventoryService.Item>, caller: Caller, id: Id,
                               other: InventoryService.Item, data: Option<InventoryService.ItemFields>,
                               cascade: InventoryService.CascadeReply)
    requires Resolve(caller).Success? && other.id == id && other.userId != Resolve(caller).value.userId
    ensures InventoryService.CheckInventory(items + [other], caller, id).status
            == InventoryService.CheckInventory(items, caller, id).status
    ensures InventoryService.GetItem(items + [other], caller, id).status
            == InventoryService.GetItem(items, caller, id).status
    ensures InventoryService.UpdateItem(items + [other], caller, id, data).status
            == InventoryService.UpdateItem(items, caller, id, data).status
    ensures InventoryService.DeleteItem(items + [other], caller, id, cascade).status
            == InventoryService.DeleteItem(items, caller, id, cascade).status
  {
    var u := Resolve(caller).value.userId;
    var t := items + [other];
    assert InventoryService.HasOwned(t, id, u) == InventoryService.HasOwned(items, id, u) by {
      if InventoryService.HasOwned(t, id, u) {
        var i :| 0 <= i < |t| && InventoryService.OwnedBy(t[i], id, u);
        assert i < |items| && t[i] == items[i];
      }
      if InventoryService.HasOwned(items, id, u) {
        var i :| 0 <= i < |items| && InventoryService.OwnedBy(items[i], id, u);
        assert t[i] == items[i];
      }
    }
  }

  /* ---------- the cascade delete ---------- */

  /** DELETE /items/<id> with its cascade answered by the product service, whose
      ownership check is answered by the inventory service. */
  function DeleteItemWithCascade(items: seq<InventoryService.Item>, products: seq<ProductService.Product>,
                                 caller: Caller, id: Id)
    : (InventoryService.Response, ProductService.Response)
  {
    var cascade := ProductService.DeleteAll(products, caller, CheckReplyOf(items, caller, id), id);
    (InventoryService.DeleteItem(items, caller, id, InventoryService.ProductAnswer(cascade.status)), cascade)
  }

  /** An item with no products can never be deleted: the product service answers
      404 for deleting nothing, and the inventory service takes that for a failed
      cascade. The item, and every product, stay as they were. */
  lemma EmptyItemCannotBeDeleted(items: seq<InventoryService.Item>, products: seq<ProductService.Product>,
                                 caller: Caller, id: Id)
    requires Resolve(caller).Success? ==> !ProductService.HasMatching(products, Resolve(caller).value.userId, id)
    ensures var (ir, pr) := DeleteItemWithCascade(items, products, caller, id);
      && ir.items == items && pr.products == products
      && ir.status != NoContent
      && (Resolve(caller).Success? ==> ir.status == InternalError)
  {
  }

  /** Asking to delete an item the caller does not own (absent or foreign) answers
      500, not 404: the cascade's own ownership check fails first. */
  lemma DeletingForeignItemIsServerError(items: seq<InventoryService.Item>, products: seq<ProductService.Product>,
                                         caller: Caller, id: Id)
    requires Resolve(caller).Success? && !InventoryService.HasOwned(items, id, Resolve(caller).value.userId)
    ensures var (ir, pr) := DeleteItemWithCascade(items, products, caller, id);
      ir.status == InternalError && ir.items == items && pr.products == products
  {
  }

  /** An owned item with at least one product is deleted together with all of
      its products, and nothing else in either collection changes. */
  lemma CascadeDeletesItemAndProducts(items: seq<InventoryService.Item>, products: seq<ProductService.Product>,
                                      caller: Caller, id: Id)
    requires InventoryService.Valid(items)
    requires Resolve(caller).Success?
    requires InventoryService.HasOwned(items, id, Resolve(caller).value.userId)
    requires ProductService.HasMatching(products, Resolve(caller).value.userId, id)
    ensures var (ir, pr) := DeleteItemWithCascade(items, products, caller, id);
      var u := Resolve(caller).value.userId;
      && ir.status == NoContent && pr.status == OK
      && (forall i :: 0 <= i < |items| ==> (items[i] in ir.items <==> items[i].id != id))
      && (forall x :: x in ir.items ==> x in items)
      && (forall i :: 0 <= i < |pr.products| ==> pr.products[i] in products
                                                 && !ProductService.Matches(pr.products[i], u, id))
      && (forall i :: 0 <= i < |products| && !ProductService.Matches(products[i], u, id) ==>
            products[i] in pr.products)
  {
  }

  /* ---------- the chart over the product listing ---------- */

  /** The listing as the chart service receives it. The listing's records carry
      no `created_date` key. */
  function RowsOf(r: ProductService.Response): ChartService.ProductReply {
    var views := if r.body.Listing? then r.body.views else [];
    ChartService.ProductAnswer(
      r.status,
      seq(|views|, i requires 0 <= i < |views| => ChartService.Row(None, views[i])),
      if r.body.Message? then Some(r.body.text) else None)
  }

  /** The monthly chart never succeeds against the real listing: an empty
      listing is a 404 passed through, and a non-empty one has no
      `created_date` to sort by, so sorting raises. */
  lemma MonthlyChartNeverSucceeds(products: seq<ProductService.Product>, items: seq<InventoryService.Item>,
                                  caller: Caller, id: Id, data: Option<ChartService.MonthQuery>,
                                  currentYear: int)
    ensures var listing := ProductService.GetProducts(products, caller, CheckReplyOf(items, caller, id), id);
      ChartService.MonthlyProducts(caller, CheckReplyOf(items, caller, id), data, currentYear, RowsOf(listing)).status
        != OK
  {
  }

  /** The yearly chart against the real listing (which ignores the month and
      year it is sent) either fails or reports every month empty. */
  lemma YearlyChartIsEmptyOrFails(products: seq<ProductService.Product>, items: seq<InventoryService.Item>,
                                  caller: Caller, id: Id, data: Option<ChartService.YearQuery>)
    ensures var check := CheckReplyOf(items, caller, id);
      var reply := RowsOf(ProductService.GetProducts(products, caller, check, id));
      var r := ChartService.YearlyProducts(caller, check, data, (m: int) => reply);
      r.status == OK ==> r.body.ByMonth? && forall k :: 1 <= k <= 12 ==> r.body.months[k] == []
  {
  }

  /* ---------- no token, no effect ---------- */

  /** A request without a token changes no collection, and every handler that
      resolves identity first answers 401; product creation validates its body
      first and may answer 400 instead. */
  lemma MissingTokenChangesNothing(items: seq<InventoryService.Item>, products: seq<ProductService.Product>,
                                   reply: UserReply, check: Ownership.CheckReply, id: Id,
                                   itemData: Option<InventoryService.ItemFields>,
                                   productData: Option<ProductService.NewProduct>,
                                   cascade: InventoryService.CascadeReply, now: string)
    ensures var c := Caller(None, reply);
      && InventoryService.CreateItem(items, c, itemData, now) == InventoryService.Response(Unauthorized, InventoryService.Message(TokenMissing), items)
      && InventoryService.UpdateItem(items, c, id, itemData) == InventoryService.Response(Unauthorized, InventoryService.Message(TokenMissing), items)
      && InventoryService.DeleteItem(items, c, id, cascade) == InventoryService.Response(Unauthorized, InventoryService.Message(TokenMissing), items)
      && ProductService.DeleteProduct(products, c, id) == ProductService.Response(Unauthorized, ProductService.Message(TokenMissing), products)
      && ProductService.DeleteAll(products, c, check, id) == ProductService.Response(Unauthorized, ProductService.Message(TokenMissing), products)
      && ProductService.CreateProduct(products, c, check, id, productData, now).products == products
      && ProductService.CreateProduct(products, c, check, id, productData, now).status in {BadRequest, Unauthorized}
  {
  }
}
