/**
 * The pipeline's paginated fetch: ask the source for pages 1, 2, ... of 100
 * records, append each page, and stop once the records gathered reach the
 * reported total or a page comes back empty; any failed request aborts the
 * whole fetch.
 */
module Fetcher {
  import opened Wrappers
  import opened Values
  import opened Pagination
  import MockServer

  /** The page size the fetch asks for. */
  const BatchLimit := 100

  /**
   * What the fetch talks to: a source serving `records` through the mock
   * server's listing logic, reporting `reportedTotal` as its "total" (None:
   * the key is missing), and failing the requests for the pages in `failures`
   * (a connection error, a timeout or an error status) with the given cause.
   */
  datatype Upstream = Upstream(records: seq<RawRecord>, reportedTotal: Option<int>, failures: map<int, string>)

  /** The mock server as it is: it reports its true total and never fails. */
  function HonestUpstream(records: seq<RawRecord>): Upstream {
    Upstream(records, Some(|records|), map[])
  }

  datatype PageRequest = PageRequest(page: int, limit: int)

  /** The parts of a listing response the fetch reads. */
  datatype PageBody = PageBody(data: seq<RawRecord>, total: Option<int>)

  /** The answer to one request. */
  function Serve(src: Upstream, req: PageRequest): (r: Result<PageBody, string>)
    ensures r.Failure? <==> req.page in src.failures
    ensures r.Failure? ==> r.error == src.failures[req.page]
    ensures r.Success? ==> r.value.total == src.reportedTotal
    ensures r.Success? && req.page >= 1 && 1 <= req.limit <= 100 ==>
      r.value.data == PageOf(src.records, req.page, req.limit)
  {
    if req.page in src.failures then Failure(src.failures[req.page])
    else Success(PageBody(MockServer.GetCustomers(src.records, Given(req.page), Given(req.limit)).data, src.reportedTotal))
  }

  /** The records gathered after pages 1 to `k` have been appended. */
  function Received(src: Upstream, k: nat): seq<RawRecord> {
    PagesUpTo(src.records, BatchLimit, k)
  }

  /** Whether the fetch stops at page `p`: the request fails, the total is reached, or the page is empty. */
  predicate Halts(src: Upstream, p: int)
    requires p >= 1
  {
    || p in src.failures
    || |Received(src, p)| >= src.reportedTotal.GetOr(0)
    || |PageOf(src.records, p, BatchLimit)| == 0
  }

  /** The first page from `p` on at which the fetch stops. */
  function FirstHalt(src: Upstream, p: int): (k: int)
    requires p >= 1
    ensures k >= p && Halts(src, k)
    ensures forall j | p <= j < k :: !Halts(src, j)
    decreases |src.records| - (p - 1) * BatchLimit
  {
    if Halts(src, p) then p else FirstHalt(src, p + 1)
  }

  /** Requests for pages 1 to `k`, each of `BatchLimit` records. */
  function Requests(k: nat): (r: seq<PageRequest>)
    ensures |r| == k
    ensures forall i | 0 <= i < k :: r[i] == PageRequest(i + 1, BatchLimit)
  {
    seq(k, i requires 0 <= i < k => PageRequest(i + 1, BatchLimit))
  }

  /** A whole fetch: its result and the requests it made, in order. */
  datatype FetchRun = FetchRun(outcome: Result<seq<RawRecord>, string>, requests: seq<PageRequest>)

  /** The fetch, specified by its stopping page. */
  function Fetch(src: Upstream): (r: FetchRun)
    ensures |r.requests| >= 1
    ensures forall i | 0 <= i < |r.requests| :: r.requests[i] == PageRequest(i + 1, BatchLimit)
    ensures Halts(src, |r.requests|) && forall p | 1 <= p < |r.requests| :: !Halts(src, p)
    ensures forall p | 1 <= p < |r.requests| :: p !in src.failures
    ensures r.outcome.Failure? <==> |r.requests| in src.failures
    ensures r.outcome.Failure? ==> r.outcome.error == src.failures[|r.requests|]
    ensures r.outcome.Success? ==> r.outcome.value == Received(src, |r.requests|)
    ensures r.outcome.Success? ==>
      |r.outcome.value| <= |src.records| && r.outcome.value == src.records[..|r.outcome.value|]
  {
    var k := FirstHalt(src, 1);
    NoEarlierFailure(src, k);
    PagesUpToIsPrefix(src.records, BatchLimit, k);
    FetchRun(if k in src.failures then Failure(src.failures[k]) else Success(Received(src, k)), Requests(k))
  }

  lemma NoEarlierFailure(src: Upstream, k: int)
    requires forall j | 1 <= j < k :: !Halts(src, j)
    ensures forall j | 1 <= j < k :: j !in src.failures
  {
    forall j | 1 <= j < k
      ensures j !in src.failures
    {
      assert !Halts(src, j);
    }
  }

  /** The stopping page is determined by where the fetch halts first. */
  lemma FirstHaltIs(src: Upstream, k: int)
    requires k >= 1 && Halts(src, k)
    requires forall j | 1 <= j < k :: !Halts(src, j)
    ensures FirstHalt(src, 1) == k
  {
  }

  /** `fetch_all_customers_from_mock_server`, request by request. */
  method FetchAllCustomers(src: Upstream) returns (outcome: Result<seq<RawRecord>, string>, requests: seq<PageRequest>)
    ensures FetchRun(outcome, requests) == Fetch(src)
  {
    var all: seq<RawRecord> := [];
    var page := 1;
    requests := [];
    while true
      invariant page >= 1
      invariant all == Received(src, page - 1)
      invariant requests == Requests(page - 1)
      invariant forall j | 1 <= j < page :: !Halts(src, j)
      decreases |src.records| - (page - 1) * BatchLimit
    {
      var req := PageRequest(page, BatchLimit);
      requests := requests + [req];
      assert requests == Requests(page);
      var response := Serve(src, req);
      if response.Failure? {
        FirstHaltIs(src, page);
        outcome := Failure(response.error);
        return;
      }
      var customers := response.value.data;
      assert customers == PageOf(src.records, page, BatchLimit);
      all := all + customers;
      var total := response.value.total.GetOr(0);
      if |all| >= total || |customers| == 0 {
        FirstHaltIs(src, page);
        outcome := Success(all);
        return;
      }
      page := page + 1;
    }
  }

  // ---------------------------------------------------------------------------
  // What the fetch gathers
  // ---------------------------------------------------------------------------

  /** Against a source reporting its true total, the fetch halts exactly at a failed page or at the last page. */
  lemma HonestHaltsAt(records: seq<RawRecord>, failures: map<int, string>, p: int)
    requires p >= 1
    ensures Halts(Upstream(records, Some(|records|), failures), p)
        <==> p in failures || p >= Max(1, CeilDiv(|records|, BatchLimit))
  {
    var src := Upstream(records, Some(|records|), failures);
    var last := Max(1, CeilDiv(|records|, BatchLimit));
    PagesUpToIsPrefix(records, BatchLimit, p);
    if p < last {
      assert (p - 1) * BatchLimit < p * BatchLimit < |records|;
    }
  }

  /**
   * Against the mock server as it is, the fetch returns every record once and
   * in order, after `max(1, ceil(n / 100))` requests.
   */
  lemma HonestFetchIsComplete(records: seq<RawRecord>)
    ensures Fetch(HonestUpstream(records)) == FetchRun(Success(records), Requests(Max(1, CeilDiv(|records|, BatchLimit))))
  {
    var src := HonestUpstream(records);
    var last := Max(1, CeilDiv(|records|, BatchLimit));
    forall j | 1 <= j <= last
      ensures Halts(src, j) <==> j == last
    {
      HonestHaltsAt(records, map[], j);
    }
    FirstHaltIs(src, last);
    PagesUpToIsPrefix(records, BatchLimit, last);
    assert Min(last * BatchLimit, |records|) == |records|;
    assert Received(src, last) == records;
  }

  /** 250 records take three requests, 200 take two, and an empty source one. */
  lemma HonestRequestCounts(records: seq<RawRecord>)
    ensures |records| == 250 ==> |Fetch(HonestUpstream(records)).requests| == 3
    ensures |records| == 200 ==> |Fetch(HonestUpstream(records)).requests| == 2
    ensures |records| == 0 ==> |Fetch(HonestUpstream(records)).requests| == 1
  {
    HonestFetchIsComplete(records);
  }

  /**
   * Against a source reporting its true total, a failure of any page the
   * fetch would ask for fails the whole fetch.
   */
  lemma FailedPageFailsFetch(records: seq<RawRecord>, failures: map<int, string>, p: int)
    requires p in failures && 1 <= p <= Max(1, CeilDiv(|records|, BatchLimit))
    ensures Fetch(Upstream(records, Some(|records|), failures)).outcome.Failure?
  {
    var src := Upstream(records, Some(|records|), failures);
    var r := Fetch(src);
    var k := |r.requests|;
    HonestHaltsAt(records, failures, k);
    if k < p {
      HonestHaltsAt(records, failures, p);
    }
  }

  /** Without failures, a total that is not under-reported gets every record. */
  lemma FetchCompleteUnlessUnderReported(src: Upstream)
    requires src.failures == map[] && src.reportedTotal.GetOr(0) >= |src.records|
    ensures Fetch(src).outcome == Success(src.records)
  {
    var r := Fetch(src);
    var k := |r.requests|;
    PagesUpToIsPrefix(src.records, BatchLimit, k);
    assert Min(k * BatchLimit, |src.records|) == |src.records|;
    assert r.outcome.Success? && r.outcome.value == src.records[..|src.records|];
    assert src.records[..|src.records|] == src.records;
  }

  /** A response without "total" counts as total 0: the fetch stops after page 1, keeping at most 100 records. */
  lemma MissingTotalStopsAfterFirstPage(src: Upstream)
    requires src.reportedTotal.None? && 1 !in src.failures
    ensures Fetch(src) == FetchRun(Success(src.records[..Min(BatchLimit, |src.records|)]), [PageRequest(1, BatchLimit)])
  {
    FirstHaltIs(src, 1);
    PagesUpToIsPrefix(src.records, BatchLimit, 1);
  }
}
