/**
 * What one run of the upsert writer guarantees about the table: idempotence,
 * last writer wins, nothing outside the batch changes, full-row overwrite
 * (nulls included), all-or-nothing on failure, and rows filed under their
 * own key.
 */
module UpsertLaws {
  import opened Wrappers
  import opened Values
  import opened Normalize
  import opened Upsert
  import RoundTrip

  /** Writing the same rows twice leaves the table as writing them once. */
  lemma ApplyRowsTwice(store: Store, rows: seq<Customer>)
    ensures ApplyRows(ApplyRows(store, rows), rows) == ApplyRows(store, rows)
  {
    var once := ApplyRows(store, rows);
    var twice := ApplyRows(once, rows);
    assert forall k :: k in twice <==> k in once;
    forall k | k in twice
      ensures twice[k] == once[k]
    {
    }
  }

  /** Upserting a batch a second time changes nothing and reports the same result. */
  lemma UpsertIdempotent(store: Store, batch: seq<RawRecord>)
    ensures UpsertSpec(UpsertSpec(store, batch).1, batch) == UpsertSpec(store, batch)
  {
    if |batch| > 0 && Collect(Outcomes(batch)).Success? {
      ApplyRowsTwice(store, Collect(Outcomes(batch)).value);
    }
  }

  /** In a run of writes, a row that no later row of the same key follows is what the table ends with. */
  lemma ApplyRowsLastWriter(store: Store, rows: seq<Customer>, i: nat)
    requires i < |rows| && forall j | i < j < |rows| :: rows[j].customerId != rows[i].customerId
    ensures rows[i].customerId in ApplyRows(store, rows)
    ensures ApplyRows(store, rows)[rows[i].customerId] == rows[i]
  {
    var k := rows[i].customerId;
    var w := LastWrite(rows, k);
    var i' :| 0 <= i' < |rows| && rows[i'] == w.value && rows[i'].customerId == k
              && forall j | i' < j < |rows| :: rows[j].customerId != k;
    assert i' == i;
  }

  /** The record's `customer_id` is the key its row is written under. */
  lemma OutcomeKey(batch: seq<RawRecord>, j: nat, row: Customer)
    requires j < |batch| && Outcomes(batch)[j] == Success(row)
    ensures Get(batch[j], "customer_id") == JStr(row.customerId)
  {
    assert NormalizeRecord(batch[j]) == Success(row);
  }

  /** A successful upsert writes, for each `customer_id`, the row of its last record in the batch. */
  lemma UpsertLastWriterWins(store: Store, batch: seq<RawRecord>, i: nat)
    requires i < |batch| && UpsertSpec(store, batch).0.Success?
    requires forall j | i < j < |batch| :: Get(batch[j], "customer_id") != Get(batch[i], "customer_id")
    ensures NormalizeRecord(batch[i]).Success?
    ensures var row := NormalizeRecord(batch[i]).value;
      row.customerId in UpsertSpec(store, batch).1 && UpsertSpec(store, batch).1[row.customerId] == row
  {
    var outcomes := Outcomes(batch);
    var rows := Collect(outcomes).value;
    OutcomeKey(batch, i, rows[i]);
    forall j | i < j < |rows|
      ensures rows[j].customerId != rows[i].customerId
    {
      OutcomeKey(batch, j, rows[j]);
    }
    ApplyRowsLastWriter(store, rows, i);
    assert outcomes[i] == NormalizeRecord(batch[i]);
  }

  /** A key no record of the batch names keeps its row, present or absent. */
  lemma UpsertFrame(store: Store, batch: seq<RawRecord>, k: string)
    requires forall i | 0 <= i < |batch| :: Get(batch[i], "customer_id") != JStr(k)
    ensures k in UpsertSpec(store, batch).1 <==> k in store
    ensures k in store ==> UpsertSpec(store, batch).1[k] == store[k]
  {
    var outcomes := Outcomes(batch);
    if |batch| > 0 && Collect(outcomes).Success? {
      var rows := Collect(outcomes).value;
      forall i | 0 <= i < |rows|
        ensures rows[i].customerId != k
      {
        assert outcomes[i] == NormalizeRecord(batch[i]) == Success(rows[i]);
      }
    }
  }

  /**
   * A single record replaces the whole stored row: no column of the previous
   * row survives, so a null incoming field clears the stored value.
   */
  lemma UpsertOverwritesWholeRow(store: Store, rec: RawRecord)
    requires NormalizeRecord(rec).Success?
    ensures var row := NormalizeRecord(rec).value;
      UpsertSpec(store, [rec]) == (Success(1), store[row.customerId := row])
    ensures var stored := UpsertSpec(store, [rec]).1[NormalizeRecord(rec).value.customerId];
      && (Get(rec, "phone") == JNull ==> stored.phone == None)
      && (Get(rec, "address") == JNull ==> stored.address == None)
      && (Get(rec, "date_of_birth") == JNull ==> stored.dateOfBirth == None)
      && (Get(rec, "account_balance") == JNull ==> stored.accountBalance == None)
      && (Get(rec, "created_at") == JNull ==> stored.createdAt == None)
  {
    assert Outcomes([rec]) == [NormalizeRecord(rec)];
    CommitOne(store, NormalizeRecord(rec));
  }

  /** Committing one successful outcome puts its row under its key and counts 1. */
  lemma CommitOne(store: Store, o: Result<Customer, string>)
    requires o.Success?
    ensures Commit(store, [o]) == (Success(1), store[o.value.customerId := o.value])
  {
    assert [o][..0] == [];
    CollectSnoc([o], 0);
    assert [o][..1] == [o];
    ApplyRowsSnoc(store, [], o.value);
    assert [] + [o.value] == [o.value];
  }

  lemma CollectTwo<T, E>(a: Result<T, E>, b: Result<T, E>)
    requires a.Success? && b.Success?
    ensures Collect([a, b]) == Success([a.value, b.value])
  {
    var os := [a, b];
    assert os[..0] == [];
    assert Collect(os[..0]) == Success([]);
    CollectSnoc(os, 0);
    assert [] + [a.value] == [a.value];
    CollectSnoc(os, 1);
    assert os[..2] == os;
    assert [a.value] + [b.value] == [a.value, b.value];
  }

  lemma ApplySameRowTwice(store: Store, r: Customer)
    ensures ApplyRows(store, [r, r]) == store[r.customerId := r]
  {
    assert [r, r][..1] == [r];
    assert [r][..0] == [];
  }

  /** Committing the same successful outcome twice counts 2 and writes as once. */
  lemma CommitSameTwice(store: Store, o: Result<Customer, string>)
    requires o.Success?
    ensures Commit(store, [o, o]) == (Success(2), Commit(store, [o]).1)
  {
    CommitOne(store, o);
    CollectTwo(o, o);
    ApplySameRowTwice(store, o.value);
  }

  /** `records_processed` counts records, not rows: a record sent twice counts twice and lands once. */
  lemma DuplicateRecordCountsTwice(store: Store, rec: RawRecord)
    requires NormalizeRecord(rec).Success?
    ensures UpsertSpec(store, [rec, rec]) == (Success(2), UpsertSpec(store, [rec]).1)
  {
    var o := NormalizeRecord(rec);
    assert Outcomes([rec]) == [o];
    assert Outcomes([rec, rec]) == [o, o];
    CommitSameTwice(store, o);
  }

  /**
   * A record without `customer_id`, `first_name`, `last_name` or `email` fails
   * the whole batch and leaves the table as it was; if every record before it
   * is sound, the error is that record's KeyError.
   */
  lemma MissingKeyAbortsBatch(store: Store, batch: seq<RawRecord>, i: nat)
    requires i < |batch| && MissingKey(batch[i]).Some?
    ensures UpsertSpec(store, batch).0.Failure? && UpsertSpec(store, batch).1 == store
    ensures (forall j | 0 <= j < i :: NormalizeRecord(batch[j]).Success?) ==>
      UpsertSpec(store, batch).0 == Failure(KeyErrorText(MissingKey(batch[i]).value))
  {
    var outcomes := Outcomes(batch);
    assert outcomes[i] == NormalizeRecord(batch[i]);
    if forall j | 0 <= j < i :: NormalizeRecord(batch[j]).Success? {
      assert forall j | 0 <= j < i :: outcomes[..i][j] == NormalizeRecord(batch[j]);
      CollectFirstFailure(outcomes, i);
    }
  }

  /** Writing rows keeps every row filed under its own `customer_id`. */
  lemma ApplyRowsKeepsWellKeyed(store: Store, rows: seq<Customer>)
    requires WellKeyed(store)
    ensures WellKeyed(ApplyRows(store, rows))
  {
    var after := ApplyRows(store, rows);
    forall k | k in after
      ensures after[k].customerId == k
    {
      if LastWrite(rows, k).Some? {
        var i :| 0 <= i < |rows| && rows[i] == LastWrite(rows, k).value && rows[i].customerId == k
                 && forall j | i < j < |rows| :: rows[j].customerId != k;
      }
    }
  }

  /** Upserting keeps every row filed under its own `customer_id`. */
  lemma UpsertKeepsWellKeyed(store: Store, batch: seq<RawRecord>)
    requires WellKeyed(store)
    ensures WellKeyed(UpsertSpec(store, batch).1)
  {
    if |batch| > 0 && Collect(Outcomes(batch)).Success? {
      ApplyRowsKeepsWellKeyed(store, Collect(Outcomes(batch)).value);
    }
  }

  /** Whatever `date_of_birth` holds, it never decides whether the record is written. */
  lemma DateNeverBlocksRecord(rec: RawRecord, v: RawValue)
    ensures NormalizeRecord(rec["date_of_birth" := v]).Success? <==> NormalizeRecord(rec).Success?
  {
    var rec' := rec["date_of_birth" := v];
    assert forall key | key != "date_of_birth" :: Get(rec', key) == Get(rec, key);
    assert MissingKey(rec') == MissingKey(rec);
  }

  /** A malformed date of birth is stored as null and the record is still written. */
  lemma MalformedDateIsStoredAsNull(store: Store, rec: RawRecord)
    requires NormalizeRecord(rec).Success? && Get(rec, "date_of_birth") == JStr("not-a-date")
    ensures var id := NormalizeRecord(rec).value.customerId;
      UpsertSpec(store, [rec]).0 == Success(1) && id in UpsertSpec(store, [rec]).1
      && UpsertSpec(store, [rec]).1[id].dateOfBirth == None
  {
    RoundTrip.MalformedDateIsNull();
    UpsertOverwritesWholeRow(store, rec);
  }
}
