/** The chart service (chart/app.py): no storage of its own. It checks identity
    and ownership, validates the month or year in the body, fetches the item's
    products from the product service and sorts them by `created_date`,
    newest first; the yearly route does that once per month. */
module ChartService {
  import opened Common
  import opened Identity
  import Ownership
  import opened Ordering
  import ProductService

  /** A fetched JSON record: the `created_date` key it may carry, and the rest. */
  datatype Row = Row(createdDate: Option<string>, fields: ProductService.View)

  /** The product service's answer to `/products/<id>`, or the transport failure. */
  datatype ProductReply =
    | ProductAnswer(status: int, rows: seq<Row>, msg: Option<string>)
    | ProductUnreachable(reason: string)

  /** The JSON bodies the two routes read. */
  datatype MonthQuery = MonthQuery(month: Option<int>, year: Option<int>)
  datatype YearQuery = YearQuery(year: Option<int>)

  datatype Body =
    | Message(text: string)
    | Rows(rows: seq<Row>)
    | ByMonth(months: map<int, seq<Row>>)
    | ServerError   // an exception nothing catches: the framework answers 500

  datatype Response = Response(status: int, body: Body)

  function CreatedKey(r: Row): string { r.createdDate.GetOr("") }

  predicate AllKeyed(rows: seq<Row>) {
    forall i :: 0 <= i < |rows| ==> rows[i].createdDate.Some?
  }

  /** `sorted(rows, key=lambda x: x['created_date'], reverse=True)`: raises
      when a record lacks the key. */
  function SortByCreatedDate(rows: seq<Row>): (r: Result<seq<Row>, string>)
    ensures r.Success? <==> AllKeyed(rows)
    ensures r.Success? ==> multiset(r.value) == multiset(rows) && SortedDesc(r.value, CreatedKey)
  {
    if AllKeyed(rows) then Success(SortDesc(rows, CreatedKey)) else Failure("KeyError: 'created_date'")
  }

  /** The month is present and within 1..12, and the year (the body's, else the
      current one) is not negative. */
  predicate MonthQueryValid(data: Option<MonthQuery>, currentYear: int) {
    data.Some? && data.value.month.Some? && 1 <= data.value.month.value <= 12
    && data.value.year.GetOr(currentYear) >= 0
  }

  /** The listing was fetched and answered with a status other than 200, which
      the monthly route passes on as its own. */
  predicate Forwarded(caller: Caller, check: Ownership.CheckReply, data: Option<MonthQuery>,
                      currentYear: int, reply: ProductReply) {
    Resolve(caller).Success? && Ownership.Interpret(check) == Success(true) && MonthQueryValid(data, currentYear)
    && reply.ProductAnswer? && reply.status != OK
  }

  /** GET /inventory-products/<id>. The month and year are validated but not
      sent on: the product service is asked for the item's whole listing. Every
      status other than 200 arises either from the route's own check or from a
      listing answer passed on unchanged. */
  function MonthlyProducts(caller: Caller, check: Ownership.CheckReply, data: Option<MonthQuery>,
                           currentYear: int, reply: ProductReply): (r: Response)
    ensures Forwarded(caller, check, data, currentYear, reply) ==> r.status == reply.status
    ensures r.status == Unauthorized <==>
      || Resolve(caller).Failure?
      || (Forwarded(caller, check, data, currentYear, reply) && reply.status == Unauthorized)
    ensures r.status == Forbidden <==>
      || (Resolve(caller).Success? && Ownership.Interpret(check) == Success(false))
      || (Forwarded(caller, check, data, currentYear, reply) && reply.status == Forbidden)
    ensures r.status == BadRequest <==>
      || (Resolve(caller).Success? && Ownership.Interpret(check) == Success(true) && !MonthQueryValid(data, currentYear))
      || (Forwarded(caller, check, data, currentYear, reply) && reply.status == BadRequest)
    ensures r.status == InternalError <==>
      || (Resolve(caller).Success? && Ownership.Interpret(check).Failure?)
      || (&& Resolve(caller).Success? && Ownership.Interpret(check) == Success(true)
          && MonthQueryValid(data, currentYear)
          && (reply.ProductUnreachable? || (reply.status == OK && !AllKeyed(reply.rows))))
      || (Forwarded(caller, check, data, currentYear, reply) && reply.status == InternalError)
    ensures r.status == OK <==>
      Resolve(caller).Success? && Ownership.Interpret(check) == Success(true) && MonthQueryValid(data, currentYear)
      && reply.ProductAnswer? && reply.status == OK && AllKeyed(reply.rows)
    ensures r.status == OK ==>
      && r.body.Rows?
      && multiset(r.body.rows) == multiset(reply.rows)
      && SortedDesc(r.body.rows, CreatedKey)
  {
    match Resolve(caller)
    case Failure(e) => Response(Unauthorized, Message(e))
    case Success(_) =>
      match Ownership.Interpret(check)
      case Failure(_) => Response(InternalError, ServerError)
      case Success(owned) =>
        if !owned then Response(Forbidden, Message("Unauthorized or inventory item not found"))
        else if data.None? || data.value.month.None? then
          Response(BadRequest, Message("Invalid input data. Required field: 'month'."))
        else if !(1 <= data.value.month.value <= 12) then
          Response(BadRequest, Message("Month must be between 1 and 12."))
        else if data.value.year.GetOr(currentYear) < 0 then
          Response(BadRequest, Message("Year must be a positive integer."))
        else match reply
          case ProductUnreachable(reason) =>
            Response(InternalError, Message("Error communicating with product service: " + reason))
          case ProductAnswer(status, rows, msg) =>
            if status != OK then Response(status, Message(msg.GetOr("Failed to fetch products")))
            else match SortByCreatedDate(rows)
              case Failure(_) => Response(InternalError, ServerError)
              case Success(sorted) => Response(OK, Rows(sorted))
  }

  /** What one month's call leaves in the map: the sorted listing after a 200,
      nothing after any other status. */
  ghost predicate MonthEntry(reply: ProductReply, entry: seq<Row>) {
    reply.ProductAnswer?
    && (reply.status == OK ==> multiset(entry) == multiset(reply.rows) && SortedDesc(entry, CreatedKey))
    && (reply.status != OK ==> entry == [])
  }

  /** One month's call does not abort the loop. */
  predicate MonthCompletes(reply: ProductReply) {
    reply.ProductAnswer? && (reply.status == OK ==> AllKeyed(reply.rows))
  }

  /** The loop over months `m..12`, filling `acc`; the first transport failure or
      unsortable listing aborts it. */
  function CollectMonths(replyFor: int -> ProductReply, m: int, acc: map<int, seq<Row>>)
    : (r: Result<map<int, seq<Row>>, Body>)
    requires 1 <= m <= 13
    ensures r.Success? <==> forall k :: m <= k <= 12 ==> MonthCompletes(replyFor(k))
    ensures r.Success? ==>
      && (forall k :: k in r.value <==> k in acc || m <= k <= 12)
      && (forall k :: m <= k <= 12 ==> MonthEntry(replyFor(k), r.value[k]))
      && (forall k :: k in acc && !(m <= k <= 12) ==> r.value[k] == acc[k])
    decreases 13 - m
  {
    if m == 13 then Success(acc)
    else
      var entry :=
        match replyFor(m)
        case ProductUnreachable(reason) =>
          Failure(Message("Error communicating with product service: " + reason))
        case ProductAnswer(status, rows, _) =>
          if status != OK then Success([])
          else match SortByCreatedDate(rows)
            case Failure(_) => Failure(ServerError)
            case Success(sorted) => Success(sorted);
      match entry
      case Failure(b) => Failure(b)
      case Success(e) =>
        CollectMonths(replyFor, m + 1, acc[m := e])
  }

  /** The map the route starts from: every month 1..12 with an empty list. */
  function EmptyYear(): (r: map<int, seq<Row>>)
    ensures forall k :: k in r <==> 1 <= k <= 12
    ensures forall k :: k in r ==> r[k] == []
  {
    map[1 := [], 2 := [], 3 := [], 4 := [], 5 := [], 6 := [],
        7 := [], 8 := [], 9 := [], 10 := [], 11 := [], 12 := []]
  }

  /** GET /inventory-products-yearly/<id>; `replyFor(m)` is the product
      service's answer to the call made for month `m`. */
  function YearlyProducts(caller: Caller, check: Ownership.CheckReply, data: Option<YearQuery>,
                          replyFor: int -> ProductReply): (r: Response)
    ensures Resolve(caller).Failure? <==> r.status == Unauthorized
    ensures r.status == Forbidden <==> Resolve(caller).Success? && Ownership.Interpret(check) == Success(false)
    ensures r.status == InternalError <==>
      Resolve(caller).Success?
      && (|| Ownership.Interpret(check).Failure?
          || (&& Ownership.Interpret(check) == Success(true)
              && data.Some? && data.value.year.Some? && data.value.year.value >= 0
              && !forall k :: 1 <= k <= 12 ==> MonthCompletes(replyFor(k))))
    ensures r.status == BadRequest <==>
      Resolve(caller).Success? && Ownership.Interpret(check) == Success(true)
      && (data.None? || data.value.year.None? || data.value.year.value < 0)
    ensures r.status == OK <==>
      Resolve(caller).Success? && Ownership.Interpret(check) == Success(true)
      && data.Some? && data.value.year.Some? && data.value.year.value >= 0
      && forall k :: 1 <= k <= 12 ==> MonthCompletes(replyFor(k))
    ensures r.status == OK ==>
      && r.body.ByMonth?
      && (forall k :: k in r.body.months <==> 1 <= k <= 12)
      && forall k :: 1 <= k <= 12 ==> MonthEntry(replyFor(k), r.body.months[k])
  {
    match Resolve(caller)
    case Failure(e) => Response(Unauthorized, Message(e))
    case Success(_) =>
      match Ownership.Interpret(check)
      case Failure(_) => Response(InternalError, ServerError)
      case Success(owned) =>
        if !owned then Response(Forbidden, Message("Unauthorized or inventory item not found"))
        else if data.None? || data.value.year.None? then
          Response(BadRequest, Message("Invalid input data. Required field: 'year'."))
        else if data.value.year.value < 0 then
          Response(BadRequest, Message("Year must be a positive integer."))
        else match CollectMonths(replyFor, 1, EmptyYear())
          case Failure(b) => Response(InternalError, b)
          case Success(months) => Response(OK, ByMonth(months))
  }
}
