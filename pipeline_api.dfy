/**
 * The pipeline service's endpoints: `POST /api/ingest`, which composes the
 * fetch and the upsert, and the two read endpoints over the stored table.
 */
module PipelineApi {
  import opened Wrappers
  import opened Values
  import opened Pagination
  import opened Fetcher
  import opened Upsert

  /** The error responses the endpoints produce. */
  datatype ApiError =
    | InvalidQuery(param: string)        // 422: the query argument fails its bounds or is not an integer
    | NotFound(detail: string)           // 404
  {
    function Status(): nat {
      match this
      case InvalidQuery(_) => 422
      case NotFound(_) => 404
    }
  }

  // ---------------------------------------------------------------------------
  // GET /api/customers
  // ---------------------------------------------------------------------------

  /** The JSON body of the listing. */
  datatype CustomerPage = CustomerPage(data: seq<Customer>, total: nat, page: int, limit: int, totalPages: nat)

  /**
   * The order in which an unordered scan of the table meets its rows: every
   * stored `customer_id` exactly once. The query has no ORDER BY, so the
   * database chooses it.
   */
  predicate IsScanOrder(store: Store, order: seq<string>) {
    && |order| == |store|
    && (forall i | 0 <= i < |order| :: order[i] in store)
    && (forall i, j | 0 <= i < j < |order| :: order[i] != order[j])
  }

  /** The stored rows for `keys`, in that order. */
  function RowsOf(store: Store, keys: seq<string>): (r: seq<Customer>)
    requires forall i | 0 <= i < |keys| :: keys[i] in store
    ensures |r| == |keys| && forall i | 0 <= i < |keys| :: r[i] == store[keys[i]]
  {
    seq(|keys|, i requires 0 <= i < |keys| => store[keys[i]])
  }

  /** A query argument with a default and inclusive bounds, as the endpoint declares it. */
  function BoundedArg(arg: QueryArg, default: int, lo: int, hi: Option<int>): (r: Option<int>)
    ensures arg.Absent? ==> r == Some(default)
    ensures arg.NotAnInteger? ==> r == None
    ensures arg.Given? ==> (r.Some? <==> lo <= arg.n && (hi.Some? ==> arg.n <= hi.value))
    ensures arg.Given? && r.Some? ==> r.value == arg.n
  {
    match arg
    case Absent => Some(default)
    case NotAnInteger => None
    case Given(n) => if lo <= n && (hi.None? || n <= hi.value) then Some(n) else None
  }

  /**
   * `get_customers`: `page >= 1` and `1 <= limit <= 100` are enforced (a 422,
   * not a clamp); the rows from offset `(page - 1) * limit`, at most `limit`
   * of them, with the table's size and page count.
   */
  function ListCustomers(store: Store, order: seq<string>, page: QueryArg, limit: QueryArg): (r: Result<CustomerPage, ApiError>)
    requires IsScanOrder(store, order)
    ensures r.Success? <==> BoundedArg(page, 1, 1, None).Some? && BoundedArg(limit, 10, 1, Some(100)).Some?
    ensures BoundedArg(page, 1, 1, None).None? ==> r == Failure(InvalidQuery("page"))
    ensures BoundedArg(page, 1, 1, None).Some? && BoundedArg(limit, 10, 1, Some(100)).None? ==> r == Failure(InvalidQuery("limit"))
    ensures r.Success? ==>
      && Some(r.value.page) == BoundedArg(page, 1, 1, None) && Some(r.value.limit) == BoundedArg(limit, 10, 1, Some(100))
      && r.value.page >= 1 && 1 <= r.value.limit <= 100
    ensures r.Success? ==> r.value.total == |store| && 0 <= (r.value.page - 1) * r.value.limit
    ensures r.Success? ==> |r.value.data| == Min(r.value.limit, Max(0, |store| - (r.value.page - 1) * r.value.limit))
    ensures r.Success? ==> forall i | 0 <= i < |r.value.data| ::
      r.value.data[i] == store[order[(r.value.page - 1) * r.value.limit + i]]
    ensures r.Success? && r.value.total == 0 ==> r.value.totalPages == 0
    ensures r.Success? && r.value.total > 0 ==>
      r.value.totalPages * r.value.limit >= r.value.total > (r.value.totalPages - 1) * r.value.limit
  {
    match (BoundedArg(page, 1, 1, None), BoundedArg(limit, 10, 1, Some(100)))
    case (None, _) => Failure(InvalidQuery("page"))
    case (_, None) => Failure(InvalidQuery("limit"))
    case (Some(p), Some(l)) =>
      var total := |store|;
      MulMono(0, p - 1, l);
      Success(CustomerPage(RowsOf(store, PageOf(order, p, l)), total, p, l, if total > 0 then CeilDiv(total, l) else 0))
  }

  /** A scan order lists every stored key. */
  lemma ScanOrderCoversStore(store: Store, order: seq<string>)
    requires IsScanOrder(store, order)
    ensures forall k | k in store :: k in order
  {
    var listed := set i | 0 <= i < |order| :: order[i];
    DistinctCard(order);
    assert listed <= store.Keys;
    SubsetOfSameSize(listed, store.Keys);
    forall k | k in store
      ensures k in order
    {
      assert k in listed;
    }
  }

  lemma SubsetOfSameSize<T>(a: set<T>, b: set<T>)
    requires a <= b && |a| == |b|
    ensures a == b
  {
    if a != b {
      var x :| x in b && x !in a;
      SubsetCard(a, b - {x});
    }
  }

  lemma {:induction false} SubsetCard<T>(a: set<T>, b: set<T>)
    requires a <= b
    ensures |a| <= |b|
    decreases |a|
  {
    if a != {} {
      var y :| y in a;
      SubsetCard(a - {y}, b - {y});
    }
  }

  /** The rows of pages 1 to `k` of the listing at page size `limit`, concatenated as a client paging through it receives them. */
  function ListedPages(store: Store, order: seq<string>, limit: int, k: nat): seq<Customer>
    requires IsScanOrder(store, order) && 1 <= limit <= 100
  {
    if k == 0 then []
    else ListedPages(store, order, limit, k - 1) + ListCustomers(store, order, Given(k), Given(limit)).value.data
  }

  /** One page of the listing is the stored rows for that page of the scan order. */
  lemma ListedPage(store: Store, order: seq<string>, limit: int, p: int)
    requires IsScanOrder(store, order) && 1 <= limit <= 100 && p >= 1
    ensures ListCustomers(store, order, Given(p), Given(limit)).Success?
    ensures ListCustomers(store, order, Given(p), Given(limit)).value.data == RowsOf(store, PageOf(order, p, limit))
  {
  }

  lemma RowsOfConcat(store: Store, a: seq<string>, b: seq<string>)
    requires forall i | 0 <= i < |a| :: a[i] in store
    requires forall i | 0 <= i < |b| :: b[i] in store
    ensures forall i | 0 <= i < |a + b| :: (a + b)[i] in store
    ensures RowsOf(store, a + b) == RowsOf(store, a) + RowsOf(store, b)
  {
  }

  lemma {:induction false} ListedPagesAreRows(store: Store, order: seq<string>, limit: int, k: nat)
    requires IsScanOrder(store, order) && 1 <= limit <= 100
    ensures var keys := PagesUpTo(order, limit, k);
      && (forall i | 0 <= i < |keys| :: keys[i] in store)
      && ListedPages(store, order, limit, k) == RowsOf(store, keys)
  {
    PrefixKeysInStore(store, order, limit, k);
    if k > 0 {
      ListedPagesAreRows(store, order, limit, k - 1);
      ListedPagesStep(store, order, limit, k);
    }
  }

  /** The step of `ListedPagesAreRows`: page `k` appended to the pages before it. */
  lemma ListedPagesStep(store: Store, order: seq<string>, limit: int, k: nat)
    requires IsScanOrder(store, order) && 1 <= limit <= 100 && k > 0
    requires var keys := PagesUpTo(order, limit, k - 1);
      && (forall i | 0 <= i < |keys| :: keys[i] in store)
      && ListedPages(store, order, limit, k - 1) == RowsOf(store, keys)
    ensures var keys := PagesUpTo(order, limit, k);
      && (forall i | 0 <= i < |keys| :: keys[i] in store)
      && ListedPages(store, order, limit, k) == RowsOf(store, keys)
  {
    PrefixKeysInStore(store, order, limit, k);
    PageKeysInStore(store, order, k, limit);
    ListedPage(store, order, limit, k);
    RowsOfConcat(store, PagesUpTo(order, limit, k - 1), PageOf(order, k, limit));
  }

  lemma PrefixKeysInStore(store: Store, order: seq<string>, limit: int, k: nat)
    requires IsScanOrder(store, order) && limit >= 1
    ensures var keys := PagesUpTo(order, limit, k);
      forall i | 0 <= i < |keys| :: keys[i] in store
  {
    PagesUpToIsPrefix(order, limit, k);
  }

  lemma PageKeysInStore(store: Store, order: seq<string>, p: int, limit: int)
    requires IsScanOrder(store, order) && p >= 1 && limit >= 1
    ensures var keys := PageOf(order, p, limit);
      forall i | 0 <= i < |keys| :: keys[i] in store
  {
  }

  /**
   * Paging through the listing at a fixed size from page 1 to the reported
   * `total_pages` yields every stored row exactly once, in the scan order;
   * every page after it is empty.
   */
  lemma ListPagesCoverTable(store: Store, order: seq<string>, limit: int)
    requires IsScanOrder(store, order) && 1 <= limit <= 100
    ensures ListCustomers(store, order, Given(1), Given(limit)).Success?
    ensures var n := ListCustomers(store, order, Given(1), Given(limit)).value.totalPages;
      && ListedPages(store, order, limit, n) == RowsOf(store, order)
      && (forall p | p > n :: ListCustomers(store, order, Given(p), Given(limit)).value.data == [])
    ensures var n := ListCustomers(store, order, Given(1), Given(limit)).value.totalPages;
      var listed := ListedPages(store, order, limit, n);
      WellKeyed(store) ==>
        && |listed| == |store|
        && (forall k | k in store :: exists i | 0 <= i < |listed| :: listed[i] == store[k])
        && (forall i, j | 0 <= i < j < |listed| :: listed[i] != listed[j])
  {
    var n := CeilDiv(|store|, limit);
    assert ListCustomers(store, order, Given(1), Given(limit)).value.totalPages == n;
    ListedPagesAreRows(store, order, limit, n);
    PagesPartition(order, limit);
    PagesPastEnd(store, order, limit);
    if WellKeyed(store) {
      ScanRowsDistinct(store, order);
    }
  }

  /** Every page after the last one the listing reports is empty. */
  lemma PagesPastEnd(store: Store, order: seq<string>, limit: int)
    requires IsScanOrder(store, order) && 1 <= limit <= 100
    ensures forall p | p > CeilDiv(|store|, limit) :: ListCustomers(store, order, Given(p), Given(limit)).value.data == []
  {
    forall p | p > CeilDiv(|store|, limit)
      ensures ListCustomers(store, order, Given(p), Given(limit)).value.data == []
    {
      ListedPage(store, order, limit, p);
      PagesPastEndEmpty(order, limit, p);
    }
  }

  /** In a table keyed by `customer_id`, the rows of a scan order are every stored row, each once. */
  lemma ScanRowsDistinct(store: Store, order: seq<string>)
    requires IsScanOrder(store, order) && WellKeyed(store)
    ensures var listed := RowsOf(store, order);
      && |listed| == |store|
      && (forall k | k in store :: exists i | 0 <= i < |listed| :: listed[i] == store[k])
      && (forall i, j | 0 <= i < j < |listed| :: listed[i] != listed[j])
  {
    ScanOrderCoversStore(store, order);
    var listed := RowsOf(store, order);
    forall k | k in store
      ensures exists i | 0 <= i < |listed| :: listed[i] == store[k]
    {
      var i :| 0 <= i < |order| && order[i] == k;
      assert listed[i] == store[k];
    }
    forall i, j | 0 <= i < j < |listed|
      ensures listed[i] != listed[j]
    {
      assert listed[i].customerId == order[i];
      assert listed[j].customerId == order[j];
    }
  }

  /** A sequence without repetitions has as many distinct elements as positions. */
  lemma {:induction false} DistinctCard(s: seq<string>)
    requires forall i, j | 0 <= i < j < |s| :: s[i] != s[j]
    ensures |set i | 0 <= i < |s| :: s[i]| == |s|
  {
    if |s| > 0 {
      var init := s[..|s| - 1];
      DistinctCard(init);
      var a := set i | 0 <= i < |init| :: init[i];
      var b := set i | 0 <= i < |s| :: s[i];
      assert b == a + {s[|s| - 1]};
      assert s[|s| - 1] !in a;
    }
  }

  // ---------------------------------------------------------------------------
  // GET /api/customers/{customer_id}
  // ---------------------------------------------------------------------------

  /** The text of the 404 for `id`. */
  function NotFoundText(id: string): string {
    "Customer with ID '" + id + "' not found"
  }

  /** `get_customer`: the stored row with this primary key, or a 404 naming the id. */
  function GetCustomer(store: Store, id: string): (r: Result<Customer, ApiError>)
    ensures r.Success? <==> id in store
    ensures r.Success? ==> r.value == store[id]
    ensures r.Failure? ==> r.error == NotFound(NotFoundText(id)) && r.error.Status() == 404
  {
    if id in store then Success(store[id]) else Failure(NotFound(NotFoundText(id)))
  }

  // ---------------------------------------------------------------------------
  // POST /api/ingest
  // ---------------------------------------------------------------------------

  /** The responses of the ingestion endpoint. */
  datatype IngestResponse =
    | Ingested(recordsProcessed: nat)        // 200, {"status": "success", "records_processed": n}
    | IngestFailed(detail: string)           // 500, {"detail": "Ingestion failed: <cause>"}

  const FailurePrefix := "Ingestion failed: "

  /** `ingest_data`: fetch everything, then upsert it; any failure becomes a 500 naming its cause. */
  function Ingest(src: Upstream, store: Store): (r: (IngestResponse, Store))
    ensures Fetch(src).outcome.Failure? ==> r == (IngestFailed(FailurePrefix + Fetch(src).outcome.error), store)
    ensures Fetch(src).outcome.Success? ==>
      var up := UpsertSpec(store, Fetch(src).outcome.value);
      r.1 == up.1 && (up.0.Success? ==> r.0 == Ingested(up.0.value))
      && (up.0.Failure? ==> r.0 == IngestFailed(FailurePrefix + up.0.error))
    ensures r.0.IngestFailed? ==> r.1 == store
    ensures r.0.Ingested? ==> r.0.recordsProcessed == |Fetch(src).outcome.value|
  {
    match Fetch(src).outcome
    case Failure(cause) => (IngestFailed(FailurePrefix + cause), store)
    case Success(customers) =>
      match UpsertSpec(store, customers)
      case (Success(n), after) => (Ingested(n), after)
      case (Failure(cause), after) => (IngestFailed(FailurePrefix + cause), after)
  }

  /** `ingest_data` against the database: the two calls in sequence. */
  method RunIngestion(db: Database, src: Upstream) returns (resp: IngestResponse)
    modifies db
    ensures (resp, db.rows) == Ingest(src, old(db.rows))
  {
    var fetched, requests := FetchAllCustomers(src);
    if fetched.Failure? {
      return IngestFailed(FailurePrefix + fetched.error);
    }
    var processed := db.UpsertCustomers(fetched.value);
    match processed
    case Success(n) => resp := Ingested(n);
    case Failure(cause) => resp := IngestFailed(FailurePrefix + cause);
  }
}
