/**
 * The values that travel through the pipeline: the loosely typed JSON scalars
 * the source serves, and the typed date, timestamp and decimal values the
 * store keeps.
 */
module Values {
  import opened Wrappers

  /**
   * A JSON scalar as Python's `json` module hands it over. A number is kept as
   * the exact decimal that `str()` of the parsed number prints.
   */
  datatype RawValue = JNull | JStr(s: string) | JNum(n: Decimal) | JBool(b: bool)

  /** One record of the source: a key/value mapping with no type guarantees. */
  type RawRecord = map<string, RawValue>

  /** `record.get(key)`: an absent key reads as null. */
  function Get(rec: RawRecord, key: string): (v: RawValue)
    ensures key !in rec ==> v == JNull
    ensures key in rec ==> v == rec[key]
  {
    if key in rec then rec[key] else JNull
  }

  /**
   * An exact decimal in the form Python's `Decimal` keeps it: an integer
   * coefficient and a count of fractional digits, standing for
   * `mantissa / 10^scale`. Never a binary floating-point number.
   */
  datatype Decimal = Decimal(mantissa: int, scale: nat)

  /** A calendar date of the proleptic Gregorian calendar. */
  datatype Date = Date(year: nat, month: nat, day: nat)

  /**
   * A timestamp; `offset` is the UTC offset in minutes, or None for a naive
   * timestamp.
   */
  datatype DateTime = DateTime(date: Date, hour: nat, minute: nat, second: nat,
                               micro: nat, offset: Option<int>)

  predicate IsLeapYear(y: nat) {
    y % 4 == 0 && (y % 100 != 0 || y % 400 == 0)
  }

  function DaysInMonth(y: nat, m: nat): (n: nat)
    requires 1 <= m <= 12
    ensures 28 <= n <= 31
  {
    if m == 2 then (if IsLeapYear(y) then 29 else 28)
    else if m == 4 || m == 6 || m == 9 || m == 11 then 30
    else 31
  }

  /** The dates Python's `date` accepts: years 1 to 9999, real month lengths. */
  predicate ValidDate(d: Date) {
    1 <= d.year <= 9999 && 1 <= d.month <= 12 && 1 <= d.day <= DaysInMonth(d.year, d.month)
  }

  /** The timestamps Python's `datetime` accepts, with an offset under 24 hours. */
  predicate ValidDateTime(t: DateTime) {
    && ValidDate(t.date)
    && t.hour < 24 && t.minute < 60 && t.second < 60 && t.micro < 1000000
    && (t.offset.Some? ==> -1440 < t.offset.value < 1440)
  }
}
