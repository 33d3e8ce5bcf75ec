/**
 * The upsert writer: every raw record is turned into a table row (or the
 * error Python raises on it), each row is written as insert-or-overwrite keyed
 * on `customer_id` inside one transaction, and the transaction commits only
 * after the last record.
 */
module Upsert {
  import opened Wrappers
  import opened Values
  import opened Normalize

  /** A row of the `customers` table, column by column. */
  datatype Customer = Customer(
    customerId: string,
    firstName: string,
    lastName: string,
    email: string,
    phone: Option<string>,
    address: Option<string>,
    dateOfBirth: Option<Date>,
    accountBalance: Option<Decimal>,
    createdAt: Option<DateTime>)

  /** The table: one row per `customer_id`. */
  type Store = map<string, Customer>

  /** Every row is filed under its own `customer_id`. */
  predicate WellKeyed(store: Store) {
    forall k | k in store :: store[k].customerId == k
  }

  // ---------------------------------------------------------------------------
  // One record
  // ---------------------------------------------------------------------------

  /** The keys read with `customer_data[key]`, in the order the dict literal reads them. */
  const RequiredKeys: seq<string> := ["customer_id", "first_name", "last_name", "email"]

  /** The text of a `KeyError` for `key`. */
  function KeyErrorText(key: string): string { "'" + key + "'" }

  /**
   * The cause of the error the database raises for a null in a NOT NULL
   * column: an abstraction of the driver's message that keeps only the column.
   */
  function NotNullText(column: string): string {
    "null value in column \"" + column + "\" violates not-null constraint"
  }

  /** The cause of the error for a value a text column cannot take, again abstracted to the column. */
  function WrongTypeText(column: string): string {
    "invalid input for column \"" + column + "\""
  }

  /** The `values` dict the loop builds: text columns still raw, the other three normalised. */
  datatype Prepared = Prepared(
    customerId: RawValue, firstName: RawValue, lastName: RawValue, email: RawValue,
    phone: RawValue, address: RawValue,
    dateOfBirth: Option<Date>, accountBalance: Option<Decimal>, createdAt: Option<DateTime>)

  /** The first required key the record lacks, if any. */
  function MissingKey(rec: RawRecord): (r: Option<string>)
    ensures r.Some? <==> exists i | 0 <= i < |RequiredKeys| :: RequiredKeys[i] !in rec
    ensures r.Some? ==> exists i | 0 <= i < |RequiredKeys| ::
      r.value == RequiredKeys[i] && r.value !in rec && forall j | 0 <= j < i :: RequiredKeys[j] in rec
  {
    assert RequiredKeys[0] == "customer_id" && RequiredKeys[1] == "first_name";
    assert RequiredKeys[2] == "last_name" && RequiredKeys[3] == "email";
    if "customer_id" !in rec then Some("customer_id")
    else if "first_name" !in rec then Some("first_name")
    else if "last_name" !in rec then Some("last_name")
    else if "email" !in rec then Some("email")
    else None
  }

  /**
   * Building `values`: a missing required key raises KeyError first; then the
   * balance conversion, then `parse_datetime`, may raise; `parse_date` never does.
   */
  function PrepareValues(rec: RawRecord): (r: Result<Prepared, string>)
    ensures MissingKey(rec).Some? ==> r == Failure(KeyErrorText(MissingKey(rec).value))
    ensures MissingKey(rec).None? && ParseBalance(Get(rec, "account_balance")).Failure? ==>
      r == Failure(ParseBalance(Get(rec, "account_balance")).error)
    ensures (MissingKey(rec).None? && ParseBalance(Get(rec, "account_balance")).Success?
             && ParseDateTime(Get(rec, "created_at")).Failure?) ==>
      r == Failure(ParseDateTime(Get(rec, "created_at")).error)
    ensures r.Success? <==>
      MissingKey(rec).None? && ParseBalance(Get(rec, "account_balance")).Success?
      && ParseDateTime(Get(rec, "created_at")).Success?
    ensures r.Success? ==>
      && r.value.customerId == rec["customer_id"] && r.value.firstName == rec["first_name"]
      && r.value.lastName == rec["last_name"] && r.value.email == rec["email"]
      && r.value.phone == Get(rec, "phone") && r.value.address == Get(rec, "address")
      && r.value.dateOfBirth == ParseDate(Get(rec, "date_of_birth"))
      && r.value.accountBalance == ParseBalance(Get(rec, "account_balance")).value
      && r.value.createdAt == ParseDateTime(Get(rec, "created_at")).value
  {
    match MissingKey(rec)
    case Some(key) => Failure(KeyErrorText(key))
    case None =>
      match (ParseBalance(Get(rec, "account_balance")), ParseDateTime(Get(rec, "created_at")))
      case (Failure(e), _) => Failure(e)
      case (_, Failure(e)) => Failure(e)
      case (Success(balance), Success(created)) =>
        Success(Prepared(rec["customer_id"], rec["first_name"], rec["last_name"], rec["email"],
                       Get(rec, "phone"), Get(rec, "address"),
                       ParseDate(Get(rec, "date_of_birth")), balance, created))
  }

  /** A NOT NULL text column. */
  function RequiredText(v: RawValue, column: string): (r: Result<string, string>)
    ensures r.Success? <==> v.JStr?
    ensures r.Success? ==> r.value == v.s
    ensures v.JNull? ==> r == Failure(NotNullText(column))
  {
    match v
    case JStr(s) => Success(s)
    case JNull => Failure(NotNullText(column))
    case _ => Failure(WrongTypeText(column))
  }

  /** A nullable text column. */
  function OptionalText(v: RawValue, column: string): (r: Result<Option<string>, string>)
    ensures r.Success? <==> v.JStr? || v.JNull?
    ensures v.JNull? ==> r == Success(None)
    ensures v.JStr? ==> r == Success(Some(v.s))
  {
    match v
    case JStr(s) => Success(Some(s))
    case JNull => Success(None)
    case _ => Failure(WrongTypeText(column))
  }

  /** Executing the INSERT: the columns' constraints are checked in column order. */
  function ToRow(p: Prepared): (r: Result<Customer, string>)
    ensures r.Success? <==>
      p.customerId.JStr? && p.firstName.JStr? && p.lastName.JStr? && p.email.JStr?
      && (p.phone.JStr? || p.phone.JNull?) && (p.address.JStr? || p.address.JNull?)
    ensures r.Success? ==>
      && r.value.customerId == p.customerId.s && r.value.firstName == p.firstName.s
      && r.value.lastName == p.lastName.s && r.value.email == p.email.s
      && r.value.phone == (if p.phone.JStr? then Some(p.phone.s) else None)
      && r.value.address == (if p.address.JStr? then Some(p.address.s) else None)
      && r.value.dateOfBirth == p.dateOfBirth && r.value.accountBalance == p.accountBalance
      && r.value.createdAt == p.createdAt
    ensures p.customerId.JNull? ==> r == Failure(NotNullText("customer_id"))
  {
    match (RequiredText(p.customerId, "customer_id"), RequiredText(p.firstName, "first_name"),
           RequiredText(p.lastName, "last_name"), RequiredText(p.email, "email"),
           OptionalText(p.phone, "phone"), OptionalText(p.address, "address"))
    case (Failure(e), _, _, _, _, _) => Failure(e)
    case (_, Failure(e), _, _, _, _) => Failure(e)
    case (_, _, Failure(e), _, _, _) => Failure(e)
    case (_, _, _, Failure(e), _, _) => Failure(e)
    case (_, _, _, _, Failure(e), _) => Failure(e)
    case (_, _, _, _, _, Failure(e)) => Failure(e)
    case (Success(id), Success(first), Success(last), Success(mail), Success(phone), Success(address)) =>
      Success(Customer(id, first, last, mail, phone, address, p.dateOfBirth, p.accountBalance, p.createdAt))
  }

  /** One loop iteration up to `db.execute`: the row the statement writes, or what it raises. */
  function NormalizeRecord(rec: RawRecord): (r: Result<Customer, string>)
    ensures MissingKey(rec).Some? ==> r == Failure(KeyErrorText(MissingKey(rec).value))
    ensures r.Success? ==> rec["customer_id"] == JStr(r.value.customerId)
  {
    match PrepareValues(rec)
    case Failure(e) => Failure(e)
    case Success(p) => ToRow(p)
  }

  // ---------------------------------------------------------------------------
  // A batch
  // ---------------------------------------------------------------------------

  /** All the values, in order, or the first error. */
  function Collect<T, E>(rs: seq<Result<T, E>>): (r: Result<seq<T>, E>)
    ensures r.Success? <==> forall i | 0 <= i < |rs| :: rs[i].Success?
    ensures r.Success? ==> |r.value| == |rs|
    ensures r.Success? ==> forall i | 0 <= i < |rs| :: rs[i] == Success(r.value[i])
    ensures r.Failure? ==> exists i | 0 <= i < |rs| ::
      rs[i] == Failure(r.error) && forall j | 0 <= j < i :: rs[j].Success?
  {
    if |rs| == 0 then Success([])
    else
      var init := rs[..|rs| - 1];
      assert forall i | 0 <= i < |init| :: init[i] == rs[i];
      match Collect(init)
      case Failure(e) => Failure(e)
      case Success(vs) =>
        match rs[|rs| - 1]
        case Failure(e) => Failure(e)
        case Success(v) => Success(vs + [v])
  }

  /** The row the last write to `k` in `rows` puts there, if any. */
  function LastWrite(rows: seq<Customer>, k: string): (r: Option<Customer>)
    ensures r.None? <==> forall i | 0 <= i < |rows| :: rows[i].customerId != k
    ensures r.Some? ==> exists i | 0 <= i < |rows| ::
      rows[i] == r.value && rows[i].customerId == k && forall j | i < j < |rows| :: rows[j].customerId != k
  {
    if |rows| == 0 then None
    else if rows[|rows| - 1].customerId == k then
      assert rows[|rows| - 1].customerId == k;
      Some(rows[|rows| - 1])
    else
      var init := rows[..|rows| - 1];
      assert forall i | 0 <= i < |init| :: init[i] == rows[i];
      var r := LastWrite(init, k);
      if r.None? then r
      else
        var i :| 0 <= i < |init| && init[i] == r.value && init[i].customerId == k
                 && forall j | i < j < |init| :: init[j].customerId != k;
        assert rows[i] == r.value && forall j | i < j < |rows| :: rows[j].customerId != k;
        r
  }

  /**
   * The rows written one after the other, each an insert or a full overwrite
   * of the row with its `customer_id`.
   */
  function ApplyRows(store: Store, rows: seq<Customer>): (r: Store)
    ensures forall k :: k in r <==> k in store || LastWrite(rows, k).Some?
    ensures forall k | k in r :: r[k] == if LastWrite(rows, k).Some? then LastWrite(rows, k).value else store[k]
  {
    if |rows| == 0 then store
    else ApplyRows(store, rows[..|rows| - 1])[rows[|rows| - 1].customerId := rows[|rows| - 1]]
  }

  /** What each record of the batch turns into, in order. */
  function Outcomes(batch: seq<RawRecord>): (r: seq<Result<Customer, string>>)
    ensures |r| == |batch|
  {
    seq(|batch|, i requires 0 <= i < |batch| => NormalizeRecord(batch[i]))
  }

  /** The transaction's end: commit every row if no record failed, otherwise roll back. */
  function Commit(store: Store, outcomes: seq<Result<Customer, string>>): (r: (Result<nat, string>, Store))
    ensures r.0.Success? <==> Collect(outcomes).Success?
    ensures r.0.Success? ==> r.0.value == |outcomes| && r.1 == ApplyRows(store, Collect(outcomes).value)
    ensures r.0.Failure? ==> r.0.error == Collect(outcomes).error && r.1 == store
  {
    match Collect(outcomes)
    case Failure(e) => (Failure(e), store)
    case Success(rows) => (Success(|outcomes|), ApplyRows(store, rows))
  }

  /**
   * `upsert_customers` as a whole: the count it returns (or what it raises) and
   * the table once the session is over, committed or rolled back.
   */
  function UpsertSpec(store: Store, batch: seq<RawRecord>): (r: (Result<nat, string>, Store))
    ensures |batch| == 0 ==> r == (Success(0), store)
    ensures r.0.Success? ==> r.0.value == |batch|
    ensures r.0.Failure? ==> r.1 == store
  {
    if |batch| == 0 then (Success(0), store) else Commit(store, Outcomes(batch))
  }

  /** The database session the writer works in. */
  class Database {
    /** The committed contents of the table. */
    var rows: Store

    constructor (initial: Store)
      ensures rows == initial
    {
      rows := initial;
    }

    /**
     * `upsert_customers`: each statement goes into the open transaction
     * (`pending`); only a loop that reaches the end commits it.
     */
    method UpsertCustomers(batch: seq<RawRecord>) returns (r: Result<nat, string>)
      modifies this
      ensures (r, rows) == UpsertSpec(old(rows), batch)
    {
      if |batch| == 0 {
        return Success(0);
      }
      ghost var outcomes := Outcomes(batch);
      var pending := rows;
      var processed: nat := 0;
      for i := 0 to |batch|
        invariant processed == i
        invariant rows == old(rows)
        invariant Collect(outcomes[..i]).Success?
        invariant pending == ApplyRows(rows, Collect(outcomes[..i]).value)
      {
        var row := NormalizeRecord(batch[i]);
        assert row == outcomes[i];
        if row.Failure? {
          CollectFirstFailure(outcomes, i);
          return Failure(row.error);
        }
        CollectSnoc(outcomes, i);
        ApplyRowsSnoc(rows, Collect(outcomes[..i]).value, row.value);
        pending := pending[row.value.customerId := row.value];
        processed := processed + 1;
      }
      assert outcomes[..|batch|] == outcomes;
      rows := pending;
      return Success(processed);
    }
  }

  /** One more successful outcome adds its value to the collected ones. */
  lemma CollectSnoc<T, E>(rs: seq<Result<T, E>>, i: nat)
    requires i < |rs| && Collect(rs[..i]).Success? && rs[i].Success?
    ensures Collect(rs[..i + 1]) == Success(Collect(rs[..i]).value + [rs[i].value])
  {
    assert rs[..i + 1][..i] == rs[..i];
  }

  /** The first failing outcome decides the error. */
  lemma CollectFirstFailure<T, E>(rs: seq<Result<T, E>>, i: nat)
    requires i < |rs| && Collect(rs[..i]).Success? && rs[i].Failure?
    ensures Collect(rs) == Failure(rs[i].error)
  {
    var r := Collect(rs);
    assert forall j | 0 <= j < i :: rs[..i][j] == rs[j];
    var k :| 0 <= k < |rs| && rs[k] == Failure(r.error) && forall j | 0 <= j < k :: rs[j].Success?;
    assert k == i;
  }

  lemma ApplyRowsSnoc(store: Store, rows: seq<Customer>, row: Customer)
    ensures ApplyRows(store, rows + [row]) == ApplyRows(store, rows)[row.customerId := row]
  {
    assert (rows + [row])[..|rows|] == rows;
  }
}
