# Inventory, product, chart and user services — a functional model

Four small HTTP services keep a user's inventory items and the buy/sell product
records in them. The user service owns users and bearer tokens. The inventory
service owns items and answers ownership questions. The product service owns
products and computes a buy/sell/profit summary. The chart service stores
nothing; it re-fetches a listing and sorts it by date, once or once per month.

This project models the logic under the HTTP plumbing. Each collection is a
sequence of immutable records in natural (insertion) order, so "the first
match" of `find_one` means something. Each route is a pure function from the
collection and the request to a status, a body and the new collection. A call
to another service is an input: the status the peer answered, or a transport
failure. The module `Composition` answers those calls with the models of the
peer services, and the facts that span two services are proved there:

- an inventory item with no products can never be deleted, because deleting
  nothing in the product service answers 404 and the inventory service treats
  that as a failed cascade (`Composition.EmptyItemCannotBeDeleted`);
- deleting an item the caller does not own answers 500, not 404, because the
  cascade's own ownership check fails first;
- logging out clears only the stored copy of the token, so the token goes on
  resolving to the same identity afterwards (`Composition.LogoutDoesNotRevoke`);
- the chart sorts on a `created_date` key that the product listing never
  emits. Against the real listing, the monthly chart therefore never answers
  200, and the yearly chart either fails or reports every month empty.

Modules, one per source component: `Common` (options, results, ids, status
codes, the order-preserving filter behind every `find` and `delete_many`),
`Identity` (the identity resolution each service repeats), `Ownership` (the
ownership check the product and chart services repeat), `Ordering` (Python
string order and the stable descending sort), `UserService`,
`InventoryService`, `ProductService`, `ChartService` and `Composition`.

Stated and proved throughout:

- every route that stores a record keeps `_id` unique;
- identity is resolved, or the body validated, before anything is written;
- the summary loop computes exactly the reference sums over the caller's records
  of the item, and profit is sell minus buy;
- both directions of every status condition of every route (a status that the
  monthly chart passes on from the product listing counts as one of its
  conditions), and what each route leaves unchanged.

Where the code differs from what its names and comments suggest, the model follows the code:

- The product listing ignores the month and year query parameters the chart
  sends. The monthly chart does not send them at all.
- An empty `auth-token` header counts as a missing one (`if not auth_header`).
- Exceptions that the source does not catch become the framework's 500
  (`ServerError` bodies). These come from: an unexpected inventory-check status,
  a stored product without `price` or `quantity` in the listing, a fetched
  record without `created_date` in the chart, a JSON `null` body in sign-up,
  sign-in or item update, and a missing password at sign-up or at a sign-in that
  matched a user. A body of `None` in the model is always a JSON `null`.

## Model

| member | source | states |
|---|---|---|
| Identity.Resolve | inventory/app.py:26-48 | a missing or empty header gives "Token is missing" whatever the user service says; 200 gives its identity triple; 401 gives "Invalid token"; any other status "User not found or unauthorized"; every failure is one of these messages or a transport error |
| Ownership.Interpret | product/app.py:51-74 | 200 means owned, 403 and 404 mean not owned, and any other status or a transport failure is an error (the source raises) |
| Ordering.StrLeqTransitive | chart/app.py:127 | Python's string order, used as the sort key order, is transitive (with `StrLeqTotal`, `StrLeqReflexive` a total preorder) |
| Ordering.SortDesc | chart/app.py:127 | `sorted(..., reverse=True)` returns a permutation of its input ordered newest first |
| UserService.FindByUsername | user/app.py:86 | finds the first user with that username, and finds none only when no user has it |
| UserService.FindById | user/app.py:47 | finds a user exactly when one has that id, and the one found is a stored user with that id |
| UserService.SetToken | user/app.py:93 | the records with that id get the new token and every other record is unchanged; with `_id` unique that is the one record `update_one` changes (line 114 clears a token the same way) |
| UserService.UserId | user/app.py:34-55 | 400 exactly when the header is missing, 401 exactly when decoding fails, 404 exactly when no user has the decoded id, otherwise 200 with that user's id, username and email; the store is untouched |
| UserService.Signup | user/app.py:58-77 | an already registered email gives 409 and no change; a `null` body, or a new email without a password, gives 500; success appends exactly one user with the given username and email, the hashed password, no token, and an id no other user has |
| UserService.Signin | user/app.py:80-97 | 200 exactly when the first user with that username has a matching password hash; it then returns the issued token and stores it on that user; 401 exactly when no user has the name or the password does not match, every 401 with the same message, so an unknown username and a wrong password look the same; 500 exactly for a `null` body or a matched user without a password; nothing changes unless 200 |
| UserService.SigninTouchesOnlySignedInUser | user/app.py:88-95 | with unique ids, a successful sign-in changes only the signed-in user's token and no other record |
| UserService.Logout | user/app.py:100-115 | 400 for a missing header, 401 when decoding fails, otherwise 200 and only the decoded user's stored token is cleared |
| UserService.RoutesKeepValid | user/app.py:58-115 | sign-up, sign-in and logout keep user ids unique |
| InventoryService.FindOwned | inventory/app.py:89 | finds a record exactly when one has that id and belongs to that user, and it is the first such record |
| InventoryService.CheckInventory | inventory/app.py:81-100 | 401 exactly when identity fails; 200/true exactly when the caller owns an item with that id; otherwise 403/false |
| InventoryService.GetItems | inventory/app.py:104-121 | the answer holds the caller's items and only those, each as often as stored, in collection order |
| InventoryService.GetItem | inventory/app.py:124-141 | 200 with the caller's item of that id, 404 when it is absent or belongs to someone else |
| InventoryService.CreateItem | inventory/app.py:144-171 | identity is checked before the body; a missing name or type gives 400 and no change; success appends one item with the caller's user id, the current time, and a fresh id |
| InventoryService.CreatedItemIsListedLast | inventory/app.py:111 | after a successful creation, the creator's listing is the old listing with the new item at the end, and every other user's listing is unchanged |
| InventoryService.UpdateItem | inventory/app.py:174-206 | a foreign or absent item gives 404 whatever the body; a JSON `null` body gives 500; missing fields give 400; success changes only name and type of that item, keeping its creation date and owner |
| InventoryService.Rename | inventory/app.py:195 | the records with that id get the new name and type and keep every other field; every other record is unchanged |
| InventoryService.CascadeError | inventory/app.py:50-72 | the cascade succeeds only on a 200 from the product service; its 404 is an error |
| InventoryService.DeleteItem | inventory/app.py:209-237 | a failed cascade gives 500 and keeps every item; after a good cascade, 204 removes the caller's item of that id and 404 means there was none |
| InventoryService.DeleteItemRemovesExactlyTheItem | inventory/app.py:226-233 | with unique ids, a 204 removes exactly the record with that id, keeps every other record, and keeps ids unique |
| InventoryService.CreateAndUpdateKeepValid | inventory/app.py:144-206 | creating and updating items keep ids unique |
| Common.FilterIsSubMultiset | inventory/app.py:111 | a query result never holds a record more often than the collection does |
| ProductService.Matching | product/app.py:186 | selects exactly the records with the caller's user id and the item's id, none more often than stored, and is empty only when none has both |
| ProductService.CreateProduct | product/app.py:77-118 | a body without name, price, quantity or type, or with a type other than buy/sell, gives 400 before identity is looked at; a failed identity gives 401, a false ownership check 404, an ownership check that raises 500, each exactly under its condition and all without change; success appends one record with the caller's user id, the path item id, the supplied date or else now, and a fresh id |
| ProductService.Project | product/app.py:138-148 | the listing shows each record's id, name, price, quantity, type and item id, and fails when a record lacks price or quantity |
| ProductService.GetProducts | product/app.py:126-153 | 401 on identity failure, 403 when not owned, 404 exactly when no record matches both the caller and the item, 500 when the check raises or a matching record lacks price or quantity, and 200 exactly when some record matches and every matching one has both, listing exactly the matching records in order; the store is untouched |
| ProductService.FindOwned | product/app.py:164 | finds a record exactly when one has that id and belongs to that user, and it is the first such record |
| ProductService.DeleteProduct | product/app.py:156-174 | removes one record only when it exists and belongs to the caller; otherwise 404 and no change |
| ProductService.DeleteAll | product/app.py:211-226 | 200 exactly when the item is owned and at least one record matches; it then leaves exactly the non-matching records, in order; 404 exactly when the ownership check is false or nothing matches, 500 exactly when the check raises, and none of these changes anything |
| ProductService.SpendingSummary | product/app.py:176-209 | 401, 404 or 500, each exactly under its condition and without totals, when identity or ownership fails; otherwise the buy total and the sell total are the reference sums of price times quantity (a missing price or quantity counting 0) over the caller's records of the item, and profit is sell minus buy |
| ProductService.KindTotalAppend | product/app.py:192-200 | the total over two sequences of records is the sum of their totals |
| ProductService.KindTotalOfOtherKinds | product/app.py:197-200 | records of another type contribute nothing to a total |
| ProductService.OtherKindsLeaveTotalsUnchanged | product/app.py:197-200 | inserting records that are neither buy nor sell anywhere leaves both totals unchanged |
| ProductService.CreatedProductCountsInSummary | product/app.py:102-110 | a created product adds its price times quantity to its owner's total of its type for its item, and changes no other total |
| ProductService.CreateKeepsValid | product/app.py:112-115 | product creation keeps ids unique |
| ProductService.DeleteKeepsValid | product/app.py:164-226 | deleting one or all products keeps ids unique |
| ChartService.SortByCreatedDate | chart/app.py:127 | fails exactly when a fetched record lacks `created_date`; otherwise returns a permutation sorted newest first |
| ChartService.MonthlyProducts | chart/app.py:82-132 | 401, then 403 when not owned, before the body is read; missing month, a month outside 1..12 or a negative year (defaulting to the current one) give 400; a non-200 listing status is passed through; each of 401, 403, 400 and 500 holds exactly when the route's own check or a passed-through status produces it; 200 exactly when the listing is 200 and sortable, with a permutation of it sorted newest first |
| ChartService.CollectMonths | chart/app.py:160-175 | the month loop completes exactly when no month's call fails in transport or sorting; then each month holds its sorted listing after a 200 and an empty list otherwise |
| ChartService.EmptyYear | chart/app.py:158 | the starting map has exactly the months 1..12, each empty |
| ChartService.YearlyProducts | chart/app.py:134-178 | ownership is checked before the body; 403 exactly when not owned; a missing or negative year gives 400; 500 exactly when the ownership check raises or some month's call fails in transport or sorting; a 200 map has exactly the keys 1..12, each month holding its listing sorted newest first after a 200 and an empty list otherwise |
| Composition.ResolveThroughUserService | user/app.py:34-55 | a request resolves exactly when its header is present, decodes, and names a stored user, to that user's identity; the three failures keep distinct messages |
| Composition.LogoutDoesNotRevoke | user/app.py:114 | after logout, every header, the logged-out one included, resolves exactly as before |
| Composition.OwnershipThroughInventory | inventory/app.py:81-96 | the ownership check holds exactly for the caller's own existing item, fails (raises) exactly when identity fails at the inventory service, and is false otherwise |
| Composition.ForeignItemLooksAbsent | inventory/app.py:89-96 | adding someone else's item with the same id leaves check, get, update and delete answering with the same status |
| Composition.EmptyItemCannotBeDeleted | product/app.py:221-226 | when the caller has no products in the item, the composed delete never answers 204 and changes neither collection |
| Composition.DeletingForeignItemIsServerError | inventory/app.py:216-222 | deleting an item the caller does not own answers 500 and changes nothing |
| Composition.CascadeDeletesItemAndProducts | inventory/app.py:216-233 | an owned item with products is deleted with exactly its products; nothing else in either collection changes |
| Composition.MonthlyChartNeverSucceeds | chart/app.py:120-129 | against the product listing, the monthly chart never answers 200 |
| Composition.YearlyChartIsEmptyOrFails | chart/app.py:160-175 | against the product listing, a 200 yearly chart has every month empty |
| Composition.MissingTokenChangesNothing | inventory/app.py:26-30 | without a token, create, update and delete of items and deletes of products answer 401 with no change; product creation answers 400 or 401 with no change |

## Left out

- Flask routing, the `/` welcome routes, JSON encoding and `jsonify`: a request is
  a datatype, a response a status, a body datatype, and the new collection.
- The MongoDB driver: collections are sequences and `_id`s are natural numbers,
  one above the largest stored. Parsing an id string with `ObjectId` and its
  exception on a malformed id are not modelled. Neither are database write
  failures, which give 500 in item and product creation.
- HTTP calls between services: each answer is an input. `Composition` shows what
  each peer would answer over the same collections. It assumes the answers come
  from one unchanged state, so the time-of-check/time-of-use window between the
  ownership check and the write is not modelled.
- Password hashing and JWT creation and decoding are foreign libraries: they are
  function-valued fields of `UserService.Crypto`. Decoding failure is `None`.
  Token expiry is not modelled. They are fixed functions: `issue` gives a user
  the same token at every sign-in, with no issue-time or unique-id claim, and
  `hash` is unsalted.
- `datetime.utcnow()` and the current year are parameters.
- Logging and `print`.
- A request with no body or a non-JSON body: `request.get_json()` rejects it
  with the framework's own 400 (415 in newer Flask) at the line that reads the
  body: the first line of sign-up, sign-in and product creation, after identity
  resolution in item creation, after the item lookup in item update, and after
  the ownership check in both chart routes. The model's bodies are JSON values, with `None` for a JSON `null`.
- JSON value types: price, quantity, month and year are integers, and names,
  types and dates are strings. Float prices, and the type errors a wrong JSON
  type would raise, are not modelled.
- Stored item and user documents are taken to have every field. Stored products
  may lack price or quantity, but not the other fields.
- The body of the product service's 404/401 answer is not modelled beyond its
  status. The cascade's error message is fixed text. `InventoryService.CascadeError`
  treats every 404 from the product service as a failed cascade. In the source,
  that follows from `if delete_error:` seeing the 404's non-empty JSON body
  (inventory/app.py:63-64, 220), not from the status itself. It holds because
  every 404 the product service sends carries a `msg` field (product/app.py:219,
  226).
- Ordering.SortDesc: the sort is the stable insertion sort that Python's
  `sorted` is, but stability (equal dates keep their fetched order) is not
  stated in the contract.
