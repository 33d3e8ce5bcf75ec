/**
 * The mock source's two read endpoints over its in-memory record list:
 * a clamped, paginated listing and a linear lookup by identifier.
 */
module MockServer {
  import opened Values
  import opened Pagination

  /** The JSON body of `GET /api/customers`. */
  datatype ListBody = ListBody(data: seq<RawRecord>, total: int, page: int, limit: int, totalPages: int)

  /** `request.args.get(name, default, type=int)`: the default unless an integer was given. */
  function ArgOr(arg: QueryArg, default: int): (v: int)
    ensures arg.Given? ==> v == arg.n
    ensures !arg.Given? ==> v == default
  {
    if arg.Given? then arg.n else default
  }

  /** The `page` argument: default 1, and anything below 1 is raised to 1. */
  function ClampPage(page: QueryArg): (p: int)
    ensures p >= 1
    ensures !page.Given? ==> p == 1
    ensures page.Given? ==> p == Max(1, page.n)
  {
    var p := ArgOr(page, 1);
    if p < 1 then 1 else p
  }

  /** The `limit` argument: default 10, clamped into 1..100. */
  function ClampLimit(limit: QueryArg): (l: int)
    ensures 1 <= l <= 100
    ensures !limit.Given? ==> l == 10
    ensures limit.Given? ==> l == Min(100, Max(1, limit.n))
  {
    var l := ArgOr(limit, 10);
    if l < 1 then 1 else if l > 100 then 100 else l
  }

  /**
   * `GET /api/customers`: the clamped page of the record list, the total
   * number of records and the number of pages of the clamped size.
   */
  function GetCustomers(customers: seq<RawRecord>, page: QueryArg, limit: QueryArg): (r: ListBody)
    ensures r.page == ClampPage(page) && r.limit == ClampLimit(limit)
    ensures r.total == |customers|
    ensures (r.page - 1) * r.limit >= 0
    ensures |r.data| == Min(r.limit, Max(0, |customers| - (r.page - 1) * r.limit))
    ensures forall i | 0 <= i < |r.data| :: r.data[i] == customers[(r.page - 1) * r.limit + i]
    ensures r.totalPages >= 0 && r.totalPages * r.limit >= r.total
    ensures r.totalPages > 0 ==> (r.totalPages - 1) * r.limit < r.total
  {
    var p := ClampPage(page);
    var l := ClampLimit(limit);
    var data := PageOf(customers, p, l);
    var pages := CeilDiv(|customers|, l);
    MulMono(0, p - 1, l);
    ListBody(data, |customers|, p, l, pages)
  }

  /** The responses of `GET /api/customers/<customer_id>`. */
  datatype LookupResponse =
    | Found(customer: RawRecord)                       // 200, {"data": customer}
    | NotFound(error: string, customerId: string)      // 404
    | ServerError(missingKey: string)                  // 500: KeyError on a record without the key

  predicate Matches(rec: RawRecord, id: string) {
    "customer_id" in rec && rec["customer_id"] == JStr(id)
  }

  /** Every record of `prefix` has an identifier, and none is `id`. */
  predicate PassedOver(prefix: seq<RawRecord>, id: string) {
    forall j | 0 <= j < |prefix| :: "customer_id" in prefix[j] && !Matches(prefix[j], id)
  }

  /**
   * The lookup: scan the records in order and answer with the first whose
   * identifier equals `id`; a record without an identifier stops the scan
   * with a KeyError; falling off the end is a 404.
   */
  method GetCustomer(customers: seq<RawRecord>, id: string) returns (r: LookupResponse)
    ensures r.Found? ==>
      exists i | 0 <= i < |customers| :: customers[i] == r.customer && Matches(customers[i], id) && PassedOver(customers[..i], id)
    ensures r.ServerError? ==>
      r.missingKey == "customer_id" &&
      exists i | 0 <= i < |customers| :: "customer_id" !in customers[i] && PassedOver(customers[..i], id)
    ensures r.NotFound? ==> PassedOver(customers, id) && r.error == "Customer not found" && r.customerId == id
  {
    var i := 0;
    while i < |customers|
      invariant 0 <= i <= |customers|
      invariant PassedOver(customers[..i], id)
    {
      var rec := customers[i];
      if "customer_id" !in rec {
        return ServerError("customer_id");
      }
      if rec["customer_id"] == JStr(id) {
        return Found(rec);
      }
      assert customers[..i + 1] == customers[..i] + [rec];
      i := i + 1;
    }
    assert customers[..i] == customers;
    return NotFound("Customer not found", id);
  }
}
