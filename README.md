# Customer ingestion pipeline: a Dafny model

This project models the ingestion path of a two-service system.

- A mock source (`mock-server/app.py`) serves an immutable list of customer records. It has a clamped, paginated listing endpoint and a lookup by identifier.
- A pipeline service (`pipeline-service`) fetches every page of that listing and normalises the loosely typed fields: dates, timestamps and the account balance. It then upserts the batch into a `customers` table keyed on `customer_id`, inside one transaction, and serves the table through its own paginated listing and lookup.

The modules follow the program:

| module | file | models |
|---|---|---|
| `Wrappers` | wrappers.dfy | `Option` and `Result` |
| `Text` | text.dfy | digits, zero-padded numerals, scanning, `str.replace` |
| `Values` | values.dfy | raw JSON scalars, records, `Decimal`, `Date`, `DateTime` |
| `Normalize` | normalize.dfy | `parse_date`, `parse_datetime`, the balance conversion |
| `RoundTrip` | round_trip.dfy | canonical renderings, and the lemmas that read them back |
| `NormalizeLaws` | normalize_laws.dfy | what a value the normalisers return says about the text it came from |
| `Pagination` | pagination.dfy | page slicing and `ceil(total / limit)` |
| `MockServer` | mock_server.dfy | the source's `get_customers` and `get_customer` |
| `Fetcher` | fetcher.dfy | `fetch_all_customers_from_mock_server` |
| `Upsert` | upsert.dfy | `upsert_customers`, with the table as a `map` in a `Database` class |
| `UpsertLaws` | upsert_laws.dfy | idempotence, last writer wins, frame, atomicity |
| `PipelineApi` | pipeline_api.dfy | `ingest_data`, and the pipeline's `get_customers` and `get_customer` |
| `IngestLaws` | ingest_laws.dfy | end-to-end properties of an ingestion run |

Modelling choices:

- A raw record is a `map<string, RawValue>`. An absent key reads as null, as `dict.get` does.
- A JSON number is kept as the exact decimal that `str()` of the parsed number prints.
- The upstream is a finite snapshot of records. It carries the `total` it reports (None: the key is missing) and a map from page number to the cause of a failed request. A failed request stands for a transport error, a timeout or a non-2xx status.
- The fetch is a `method` with the source's `while True` loop. It is proved equal to the function `Fetch`, which is defined through the first page at which the loop stops. The loop's measure is the number of records not yet reached.
- `upsert_customers` is a method on the `Database` class. The class has one field, the committed table. The method stages writes in a local copy and assigns the field only when the loop reaches the commit. It is proved equal to the function `UpsertSpec`.
- The pipeline's listing reads the table in the order an unordered scan meets its rows, because the query has no ORDER BY. That order is a parameter: a duplicate-free list of the stored keys.

## Behaviour of the code that the model keeps

- Normalisation can fail, and the exception aborts the whole batch. Two conversions raise:
  - `Decimal(str(v))` raises on a balance that is not numeric text, or on a boolean (ingestion.py:92).
  - `"T" in v` raises `TypeError` on a truthy value that is not a string (ingestion.py:64). The `except` clause catches only `ValueError` and `AttributeError` (ingestion.py:67).
- `parse_date` reads with the `strptime` format `%Y-%m-%d` (ingestion.py:53). That format accepts one-digit months and days, and a day written as a space and a digit, as well as the zero-padded form. `ParseDateAcceptsFullDate` shows that every RFC 3339 `full-date` is accepted, and `StrptimeDateExactly` lists every other accepted spelling.
- The pipeline's listing declares `page >= 1` and `limit` from 1 to 100 (main.py:78-79), so a value outside them is rejected with an error response (422). The source's listing clamps these values instead (mock-server/app.py:42-51).

## Model

| member | source | states |
|---|---|---|
| `Normalize.ParseDate` | pipeline-service/services/ingestion.py:48-55 | None for null, empty or non-string input. A date is only ever produced from a non-empty string, and it is a valid calendar date. |
| `RoundTrip.ParseDateRoundTrip` | pipeline-service/services/ingestion.py:53 | The text `YYYY-MM-DD` of a valid date, alone or followed by `T` and anything, parses to that date. |
| `RoundTrip.ParseDateAcceptsFullDate` | pipeline-service/services/ingestion.py:53 | Every RFC 3339 `full-date`, alone or followed by a `T` part, parses to the date it names. |
| `RoundTrip.ParseDateOfTimestamp` | pipeline-service/services/ingestion.py:53 | The date of an ISO timestamp text survives `parse_date`, which drops everything from the `T` on. |
| `NormalizeLaws.StrptimeDateExactly` | pipeline-service/services/ingestion.py:53 | `strptime` with `%Y-%m-%d` gives a date exactly when the text is that date's four-digit year, a dash, a month and a dash, then a day. The month is two digits, or one digit below 10. The day is the same, or a space and one nonzero digit. Both directions. |
| `NormalizeLaws.ParseDateExactly` | pipeline-service/services/ingestion.py:48-55 | `parse_date` gives a date exactly for a string whose text before the first `T` spells it. Every other value, including every non-string, gives None. |
| `NormalizeLaws.ParseDateNamesNoDate` | pipeline-service/services/ingestion.py:52-55 | A string whose part before the first `T` spells no date gives None. |
| `RoundTrip.ParseDateNeedsDigit` | pipeline-service/services/ingestion.py:52-55 | Any string that does not start with a digit gives None. |
| `RoundTrip.MalformedDateIsNull` | pipeline-service/services/ingestion.py:52-55 | `"not-a-date"` gives None, not an error. |
| `RoundTrip.IsoDateExactly` | pipeline-service/services/ingestion.py:65 | The `full-date` reader accepts a text exactly when it is the zero-padded rendering of a valid date, in both directions. |
| `Normalize.ParseDateTime` | pipeline-service/services/ingestion.py:58-68 | Fails exactly for a truthy non-string (the uncaught `TypeError`). A timestamp comes only from a non-empty string and is always valid. |
| `RoundTrip.ParseDateTimeIsoRoundTrip` | pipeline-service/services/ingestion.py:64-65 | The `isoformat()` text of any valid timestamp, with or without an offset, parses back to that timestamp. |
| `RoundTrip.IsoReadsWithOffsetText` | pipeline-service/services/ingestion.py:65 | A naive rendering followed by any offset text that reads as the timestamp's offset parses to that timestamp. `-00:00` is one such text for UTC. |
| `NormalizeLaws.IsoDateTimeSound` | pipeline-service/services/ingestion.py:65 | A timestamp the RFC 3339 reader returns is the one the text spells. The text is the rendered date and clock, then a fraction naming the microseconds (none for 0, three digits for whole milliseconds, or six), then an offset naming the offset (none when naive). |
| `NormalizeLaws.StrptimeDateTimeSound` | pipeline-service/services/ingestion.py:66 | A timestamp that `strptime` returns is naive with no microseconds. The text is a date spelling as `%Y-%m-%d` reads it, whitespace, and the clock as one- or two-digit fields. |
| `NormalizeLaws.IsoDateTimeExactly` | pipeline-service/services/ingestion.py:65 | The RFC 3339 reader gives a timestamp exactly for the texts that spell it. A 3-digit fraction for whole milliseconds, a 6-digit fraction, or none for 0 are all accepted, and so is any `±HH:MM` offset that names the offset. Both directions. |
| `NormalizeLaws.IsoDateTimeComplete` | pipeline-service/services/ingestion.py:65 | Every text that spells a valid timestamp in RFC 3339 form is read as that timestamp. |
| `NormalizeLaws.StrptimeDateTimeExactly` | pipeline-service/services/ingestion.py:66 | `strptime` with `%Y-%m-%d %H:%M:%S` gives a timestamp exactly for the texts that spell it. Clock fields may have one digit or two. The space of the format may be any run of whitespace. Both directions. |
| `NormalizeLaws.StrptimeDateTimeComplete` | pipeline-service/services/ingestion.py:66 | Every text that spells a valid naive timestamp in the `strptime` form is read as that timestamp. |
| `NormalizeLaws.StrptimeClockComplete` | pipeline-service/services/ingestion.py:66 | Hour, minute and second fields of one or two digits within range, joined by colons, are read as that clock. |
| `NormalizeLaws.ParseDateTimeExactly` | pipeline-service/services/ingestion.py:58-68 | `parse_datetime` of a string gives a timestamp exactly when the string spells it. With a `T`, that is the RFC 3339 form after every `Z` becomes `+00:00`. Without one, it is the `strptime` form. |
| `NormalizeLaws.ParseDateTimeSound` | pipeline-service/services/ingestion.py:58-68 | A timestamp from `parse_datetime` comes from a non-empty string. With a `T`, the string with every `Z` replaced spells it in RFC 3339 form. Without one, the string spells it in the `strptime` form. |
| `RoundTrip.ParseDateTimeZulu` | pipeline-service/services/ingestion.py:65 | A trailing `Z` is read as the UTC offset `+00:00`. |
| `RoundTrip.ParseDateTimePlainRoundTrip` | pipeline-service/services/ingestion.py:66 | `YYYY-MM-DD HH:MM:SS` parses to the naive timestamp it names. |
| `Normalize.ParseBalance` | pipeline-service/services/ingestion.py:92 | None exactly when the value is null or absent. A number gives its exact decimal, so 0 stays 0. A boolean always fails, with the `InvalidOperation` message. Otherwise a failure happens only for text that is not a decimal. |
| `RoundTrip.ParseBalanceRoundTrip` | pipeline-service/services/ingestion.py:92 | Decimal text is read back exactly, coefficient and scale: never through a float. |
| `NormalizeLaws.DecimalTextExactly` | pipeline-service/services/ingestion.py:92 | `Decimal(text)` gives a decimal exactly when the text is an optional sign, digits, and an optional point with more digits. The coefficient is all the digits read as one number, negated after a minus, and the scale is the count of digits after the point. Both directions. |
| `NormalizeLaws.ParseBalanceOfText` | pipeline-service/services/ingestion.py:92 | A text balance gives a decimal exactly when the text spells it. The record fails exactly when the text spells no decimal. |
| `RoundTrip.BalanceExample` | pipeline-service/services/ingestion.py:92 | `"1234.5"` is the exact decimal 12345 × 10^-1. |
| `Upsert.MissingKey` | pipeline-service/services/ingestion.py:85-88 | Some exactly when one of the four required keys is absent. It names the first absent key, in the order the dict literal reads them. |
| `Upsert.PrepareValues` | pipeline-service/services/ingestion.py:84-94 | A missing required key raises its KeyError first. Next, a failing balance conversion gives its error, and then a failing timestamp conversion gives its own, in the order the dict literal evaluates them. Otherwise this succeeds, and each value is its field's normalised form. |
| `Upsert.ToRow` | pipeline-service/services/ingestion.py:97-106 | The row is written exactly when the four NOT NULL columns hold strings and the nullable text columns hold strings or null. Every column then carries its prepared value. |
| `Upsert.NormalizeRecord` | pipeline-service/services/ingestion.py:84-106 | A missing key gives its KeyError. A written row is keyed on the record's own `customer_id`. |
| `Upsert.ApplyRows` | pipeline-service/services/ingestion.py:97-106 | After a run of insert-or-overwrite writes, a key is present exactly when it was before or some row wrote it. It holds the last row written to it, or else its old row. |
| `Upsert.Commit` | pipeline-service/services/ingestion.py:106-110 | If every record succeeded: the count of records and all rows applied. Otherwise: the first error, and the table unchanged. |
| `Upsert.UpsertSpec` | pipeline-service/services/ingestion.py:71-110 | An empty batch gives 0 and changes nothing. Success reports `len(customers)`. A failure leaves the table as it was. |
| `Upsert.Database.UpsertCustomers` | pipeline-service/services/ingestion.py:77-110 | The per-record loop with one commit. It returns, and leaves in the table, exactly what `UpsertSpec` gives for the old table. |
| `UpsertLaws.UpsertIdempotent` | pipeline-service/services/ingestion.py:97-109 | Upserting a batch a second time reports the same result and leaves the same table as upserting it once. |
| `UpsertLaws.UpsertLastWriterWins` | pipeline-service/services/ingestion.py:82-106 | After a successful upsert, the last record in the batch for each `customer_id` is the stored row. |
| `UpsertLaws.UpsertFrame` | pipeline-service/services/ingestion.py:97-106 | A key that no record of the batch names keeps its row, or stays absent. |
| `UpsertLaws.UpsertOverwritesWholeRow` | pipeline-service/services/ingestion.py:99-104 | A record replaces the entire stored row. A null incoming optional field clears the stored value. |
| `UpsertLaws.DuplicateRecordCountsTwice` | pipeline-service/services/ingestion.py:106-107 | The count is of records, not rows: a record sent twice counts 2 and lands once. |
| `UpsertLaws.MissingKeyAbortsBatch` | pipeline-service/services/ingestion.py:85-88 | A record missing a required key fails the whole batch and leaves the table unchanged. If every earlier record is sound, the error is that key's KeyError. |
| `UpsertLaws.UpsertKeepsWellKeyed` | pipeline-service/services/ingestion.py:101-103 | Every row stays filed under its own `customer_id`. |
| `UpsertLaws.DateNeverBlocksRecord` | pipeline-service/services/ingestion.py:91 | Whatever `date_of_birth` holds, it never decides whether a record is written. |
| `UpsertLaws.MalformedDateIsStoredAsNull` | pipeline-service/services/ingestion.py:91 | A record with `date_of_birth = "not-a-date"` is still written, with a null date. |
| `Pagination.CeilDiv` | mock-server/app.py:66 | `(total + limit - 1) // limit` is the least page count that covers `total`. It is 0 exactly when `total` is 0. |
| `Pagination.PageOf` | mock-server/app.py:55-59 | The slice has length `min(limit, max(0, total - start))`, and its i-th item is the record at `start + i`. |
| `Pagination.PagesUpToIsPrefix` | mock-server/app.py:55-59 | Pages 1 to k, concatenated, are the first `min(k × limit, total)` records, in order. |
| `Pagination.PagesPastEndEmpty` | mock-server/app.py:55-59 | Every page after the last one is empty. |
| `Pagination.PagesPartition` | mock-server/app.py:55-66 | Pages 1 to `total_pages`, concatenated, are the record list exactly: each record once, in order. |
| `MockServer.ClampPage` | mock-server/app.py:42-47 | The page defaults to 1, and anything below 1 becomes 1. |
| `MockServer.ClampLimit` | mock-server/app.py:43-51 | The limit defaults to 10 and is clamped into 1 to 100. |
| `MockServer.GetCustomers` | mock-server/app.py:33-67 | The data is the clamped page's slice. `total` is the list's length whatever the page, and `total_pages` is its ceiling division by the clamped limit. |
| `MockServer.GetCustomer` | mock-server/app.py:70-85 | Returns the first record whose `customer_id` matches. A record without an id before any match stops the scan with a KeyError. Otherwise a 404 echoes the id. |
| `Fetcher.Serve` | pipeline-service/services/ingestion.py:28-33 | A request fails exactly for a failing page, with that page's cause. Otherwise the body carries the reported total and, for a page of at least 1 and a limit from 1 to 100, the source's page. |
| `Fetcher.FirstHalt` | pipeline-service/services/ingestion.py:39-41 | The stopping page: the first page where the request fails, the count reaches `total`, or the page is empty. |
| `Fetcher.Fetch` | pipeline-service/services/ingestion.py:17-45 | Requests go to pages 1, 2, … with limit 100, none twice. They stop at the first halting page, and none before it fails. The result is the in-order concatenation of the pages, or that page's failure. |
| `Fetcher.FetchAllCustomers` | pipeline-service/services/ingestion.py:22-45 | The `while True` loop makes exactly the requests of `Fetch` and returns its outcome. |
| `Fetcher.HonestHaltsAt` | pipeline-service/services/ingestion.py:40 | Against a truthful total, the loop halts at page p exactly when p fails or p ≥ `max(1, ceil(n/100))`. |
| `Fetcher.HonestFetchIsComplete` | pipeline-service/services/ingestion.py:39-41 | Against the mock server, the fetch returns all n records in order after `max(1, ceil(n/100))` requests. |
| `Fetcher.HonestRequestCounts` | pipeline-service/services/ingestion.py:39-41 | 250 records take 3 requests, 200 take 2, and 0 take 1. |
| `Fetcher.FailedPageFailsFetch` | pipeline-service/services/ingestion.py:32 | A failure of any page the fetch would request fails the whole fetch. |
| `Fetcher.FetchCompleteUnlessUnderReported` | pipeline-service/services/ingestion.py:40 | Without failures, a total that is not under-reported gets every record. |
| `Fetcher.MissingTotalStopsAfterFirstPage` | pipeline-service/services/ingestion.py:39-41 | A missing `total` counts as 0: one request, and at most the first 100 records. |
| `PipelineApi.BoundedArg` | pipeline-service/main.py:78-79 | An absent argument takes its default. An integer outside the declared bounds, or a non-integer, is rejected and never clamped. |
| `PipelineApi.ListCustomers` | pipeline-service/main.py:76-103 | A bad `page` or `limit` gives a 422. Otherwise the rows come from offset `(page-1) × limit`, at most `limit` of them, with `total` the table's size. `total_pages` is 0 for an empty table and the ceiling of `total / limit` otherwise. |
| `PipelineApi.ListPagesCoverTable` | pipeline-service/main.py:89-102 | Fix one scan order for every request. The listing's responses for pages 1 to the reported `total_pages`, concatenated, are then the stored rows in that order. Every later page is empty. When each row is filed under its own id, each stored row appears exactly once. |
| `PipelineApi.GetCustomer` | pipeline-service/main.py:106-122 | The stored row exactly when the id is present. Otherwise a 404 whose detail names the id. |
| `PipelineApi.Ingest` | pipeline-service/main.py:46-73 | A failed fetch gives `"Ingestion failed: " + cause` and never runs the upsert. Otherwise this is the upsert's count or its failure. A failure leaves the table unchanged, and success counts every fetched record. |
| `PipelineApi.RunIngestion` | pipeline-service/main.py:52-66 | The two calls in sequence against the database give exactly `Ingest`'s response and table. |
| `IngestLaws.IngestIdempotent` | pipeline-service/main.py:56-60 | Re-running ingestion against the same source reports the same result and changes nothing. |
| `IngestLaws.FailedPageLeavesTable` | pipeline-service/main.py:52-73 | A failed page fails the run with its cause, and nothing of the run is committed. |
| `IngestLaws.HonestIngestCounts` | pipeline-service/main.py:56-66 | Against the mock source, a run succeeds exactly when every record normalises, and then it reports `n`. |
| `IngestLaws.IngestedRecordsAreReadable` | pipeline-service/main.py:56-60 | After a successful run, the read API returns each record's normalised row, for each id's last record. |

## Left out

- HTTP machinery is not modelled: the async `httpx` client, Flask and FastAPI routing, `uvicorn`, and logging. A query argument is `Absent`, an integer, or not an integer.
- `PipelineApi.ListCustomers` reports only `page` when both `page` and `limit` are bad. FastAPI's 422 lists every failing argument.
- The 30-second request timeout exists only as one possible cause of a failed page.
- A listing body whose `total` is JSON `null` is not modelled. `.get("total", 0)` then returns None, and `len(all_customers) >= None` raises a `TypeError` (ingestion.py:39-40) that fails the ingestion. In the model, a reported total is an integer or absent, and absent counts as 0.
- Loading `customers.json` at start-up (mock-server/app.py:13-20) is not modelled. The record list is a given, immutable sequence.
- SQLAlchemy sessions, SQL statement construction, `get_db` and `init_db` are not modelled. The table is a `map`, and a rollback is "the committed map is unchanged".
- Rounding a balance to `DECIMAL(15,2)` happens in the database and is not modelled. `1234.5` is kept as 12345 × 10^-1, which displays as `1234.50` at the column's two places.
- `to_dict`'s conversion of the balance to a float is not modelled (pipeline-service/models/customer.py:34). Its truthiness test also turns a zero balance into null, so the 0 that `Normalize.ParseBalance` keeps is read back as null through the API.
- Upsert.ToRow does not model the range of the `DECIMAL(15,2)` column (pipeline-service/models/customer.py:21). A balance of 10^13 or more makes the database raise a numeric overflow, and the program's batch fails where the model writes the row.
- Upsert.UpsertSpec commits a batch holding such a balance, where the program's commit fails and the table is unchanged.
- IngestLaws.HonestIngestCounts: "succeeds exactly when every record normalises" holds only for balances below 10^13 in magnitude, for the same reason.
- UpsertLaws.UpsertLastWriterWins: the stored `created_at` keeps the parsed offset. The column is `TIMESTAMP` without time zone (pipeline-service/models/customer.py:22), so the database drops the offset of an aware timestamp after converting it to the session's zone.
- IngestLaws.IngestedRecordsAreReadable returns `created_at` with its offset, for the same reason.
- PipelineApi.ListPagesCoverTable assumes that every page request meets the rows in one scan order. The query pages by offset and limit with no ORDER BY (pipeline-service/main.py:95), so the database does not promise that. Under a different order for each request, a client paging through can see a row twice or miss one.
- The health endpoints are not modelled. Neither are concurrent ingestion runs (nothing coordinates them), nor deleting rows that are absent upstream (the code never deletes).
- Raw values are null, strings, numbers and booleans. JSON arrays and objects as field values are not modelled.
- A JSON float that `str()` prints with a positive exponent, such as `1e+16`, is held as its exact value at scale 0. `Decimal` would keep the exponent form, with the same value. `Normalize.NotIterable` then names its type 'int' where Python says 'float'.
- `Normalize.ParseDateTime` reads the `T` branch as the RFC 3339 `date-time` subset: a fraction of 3 or 6 digits and an optional `±HH:MM` offset. Other texts that `datetime.fromisoformat` accepts, such as `HH:MM` without seconds, give None here.
- `Normalize.ParseDate` and `Normalize.ParseDateTime` read the `strptime` class `\d` as the ASCII digits only. Python's `\d` also accepts other Unicode decimal digits. The class `\s` is modelled exactly, as the characters `str.isspace()` accepts.
- `Normalize.ParseBalance` reads plain decimal notation only: an optional sign, digits, and an optional point. `Decimal()` also accepts exponents, surrounding whitespace, underscores, `NaN` and `Infinity`, which give a failure here.
- `Upsert.ToRow` treats a number or boolean in a text column as a write failure, where the database might coerce it. The column length limits (`String(50)` and others) are not checked.
