/**
 * End-to-end properties of `POST /api/ingest`: re-running converges, a failed
 * run changes nothing, and against the mock source every record ends up
 * readable through the read API.
 */
module IngestLaws {
  import opened Wrappers
  import opened Values
  import opened Pagination
  import opened Fetcher
  import opened Upsert
  import opened PipelineApi
  import UpsertLaws

  /** Running ingestion again against the same source reports the same and changes nothing. */
  lemma IngestIdempotent(src: Upstream, store: Store)
    ensures Ingest(src, Ingest(src, store).1) == Ingest(src, store)
  {
    if Fetch(src).outcome.Success? {
      UpsertLaws.UpsertIdempotent(store, Fetch(src).outcome.value);
    }
  }

  /** A failure of any page the fetch asks for fails the run with its cause and leaves the table alone. */
  lemma FailedPageLeavesTable(records: seq<RawRecord>, failures: map<int, string>, p: int, store: Store)
    requires p in failures && 1 <= p <= Max(1, CeilDiv(|records|, BatchLimit))
    ensures var src := Upstream(records, Some(|records|), failures);
      Fetch(src).outcome.Failure? &&
      Ingest(src, store) == (IngestFailed(FailurePrefix + Fetch(src).outcome.error), store)
  {
    FailedPageFailsFetch(records, failures, p);
  }

  /** Against the mock source, the run succeeds exactly when every record normalises, and counts them all. */
  lemma HonestIngestCounts(records: seq<RawRecord>, store: Store)
    ensures Ingest(HonestUpstream(records), store).0.Ingested? <==> |records| == 0 || Collect(Outcomes(records)).Success?
    ensures Ingest(HonestUpstream(records), store).0.Ingested? ==>
      Ingest(HonestUpstream(records), store).0.recordsProcessed == |records|
  {
    HonestFetchIsComplete(records);
  }

  /**
   * Against the mock source, after a successful run the read API returns, for
   * each record that no later record with the same `customer_id` follows,
   * exactly that record's normalised row.
   */
  lemma IngestedRecordsAreReadable(records: seq<RawRecord>, store: Store, i: nat)
    requires Ingest(HonestUpstream(records), store).0.Ingested? && i < |records|
    requires forall j | i < j < |records| :: Get(records[j], "customer_id") != Get(records[i], "customer_id")
    ensures NormalizeRecord(records[i]).Success?
    ensures var row := NormalizeRecord(records[i]).value;
      GetCustomer(Ingest(HonestUpstream(records), store).1, row.customerId) == Success(row)
  {
    HonestFetchIsComplete(records);
    UpsertLaws.UpsertLastWriterWins(store, records, i);
  }
}
