/**
 * The field normalisers of the ingestion service: `parse_date`,
 * `parse_datetime` and the `account_balance` conversion. Each takes a raw JSON
 * value and yields a typed value or None; the timestamp and balance
 * conversions can also raise (Failure), exactly where the Python code does.
 */
module Normalize {
  import opened Wrappers
  import opened Text
  import opened Values

  // ---------------------------------------------------------------------------
  // Python truthiness, which `if not value:` tests
  // ---------------------------------------------------------------------------

  predicate Truthy(v: RawValue) {
    match v
    case JNull => false
    case JStr(s) => s != ""
    case JNum(n) => n.mantissa != 0
    case JBool(b) => b
  }

  // ---------------------------------------------------------------------------
  // The `strptime` directives used: %Y %m %d %H %M %S
  // ---------------------------------------------------------------------------

  /**
   * A numeric `strptime` field: one or two ASCII digits whose value lies in
   * `lo..hi` (the alternatives of the directive's regular expression, together
   * with the range check `datetime` applies afterwards).
   */
  function NumField(t: string, lo: nat, hi: nat): (r: Option<nat>)
    ensures r.Some? ==> 1 <= |t| <= 2 && AllDigits(t) && lo <= r.value <= hi && r.value == NumberValue(t)
  {
    if 1 <= |t| <= 2 && AllDigits(t) && lo <= NumberValue(t) <= hi then Some(NumberValue(t)) else None
  }

  /** `%d` also accepts a space followed by a nonzero digit. */
  function DayField(t: string): (r: Option<nat>)
    ensures r.Some? ==> 1 <= r.value <= 31
  {
    if |t| == 2 && t[0] == ' ' && IsDigit(t[1]) && t[1] != '0' then Some(DigitValue(t[1]))
    else NumField(t, 1, 31)
  }

  function MakeDate(y: nat, m: nat, d: nat): (r: Option<Date>)
    ensures r.Some? ==> ValidDate(r.value) && r.value == Date(y, m, d)
    ensures ValidDate(Date(y, m, d)) ==> r == Some(Date(y, m, d))
  {
    if ValidDate(Date(y, m, d)) then Some(Date(y, m, d)) else None
  }

  /**
   * `strptime(t, "%Y-%m-%d")`: four digits, a dash, a month field up to the
   * next dash, and a day field that must end the string.
   */
  function StrptimeDate(t: string): (r: Option<Date>)
    ensures r.Some? ==> ValidDate(r.value)
  {
    if |t| < 5 || !AllDigits(t[..4]) || t[4] != '-' then None
    else
      var rest := t[5..];
      var j := IndexOf(rest, '-');
      if j == |rest| then None
      else
        match (NumField(rest[..j], 1, 12), DayField(rest[j + 1..]))
        case (Some(m), Some(d)) => MakeDate(NumberValue(t[..4]), m, d)
        case _ => None
  }

  /** An hour, minute and second of the clock. */
  datatype Clock = Clock(hour: nat, minute: nat, second: nat)

  /** `strptime(t, "%H:%M:%S")`, the fields separated by colons. */
  function StrptimeClock(t: string): (r: Option<Clock>)
    ensures r.Some? ==> r.value.hour < 24 && r.value.minute < 60 && r.value.second < 60
  {
    var i := IndexOf(t, ':');
    if i == |t| then None
    else
      var rest := t[i + 1..];
      var k := IndexOf(rest, ':');
      if k == |rest| then None
      else
        match (NumField(t[..i], 0, 23), NumField(rest[..k], 0, 59), NumField(rest[k + 1..], 0, 59))
        case (Some(h), Some(mi), Some(s)) => Some(Clock(h, mi, s))
        case _ => None
  }

  /** How much of the text after the second dash the `%d` field takes. */
  function DayTokenLength(s: string): (n: nat)
    ensures n <= |s|
  {
    if |s| >= 2 && s[0] == ' ' then 2 else DigitRun(s)
  }

  /**
   * `strptime(t, "%Y-%m-%d %H:%M:%S")`; the space of the format matches one or
   * more whitespace characters.
   */
  function StrptimeDateTime(t: string): (r: Option<DateTime>)
    ensures r.Some? ==> ValidDateTime(r.value) && r.value.micro == 0 && r.value.offset == None
  {
    if |t| < 5 || !AllDigits(t[..4]) || t[4] != '-' then None
    else
      var rest := t[5..];
      var j := IndexOf(rest, '-');
      if j == |rest| then None
      else
        var dayAndTime := rest[j + 1..];
        var dl := DayTokenLength(dayAndTime);
        var afterDay := dayAndTime[dl..];
        var w := SpaceRun(afterDay);
        if w == 0 then None
        else
          match (NumField(rest[..j], 1, 12), DayField(dayAndTime[..dl]), StrptimeClock(afterDay[w..]))
          case (Some(m), Some(d), Some(c)) =>
            (match MakeDate(NumberValue(t[..4]), m, d)
             case Some(date) => Some(DateTime(date, c.hour, c.minute, c.second, 0, None))
             case None => None)
          case _ => None
  }

  // ---------------------------------------------------------------------------
  // The `fromisoformat` subset: the date-time of section 5.6 of RFC 3339
  // ---------------------------------------------------------------------------

  /** Exactly two digits, at most `hi`. */
  function TwoDigits(t: string, hi: nat): (r: Option<nat>)
    ensures r.Some? ==> r.value <= hi
  {
    if |t| == 2 && AllDigits(t) && NumberValue(t) <= hi then Some(NumberValue(t)) else None
  }

  /** A `full-date`: `YYYY-MM-DD`, every field zero-padded. */
  function IsoDate(t: string): (r: Option<Date>)
    ensures r.Some? ==> ValidDate(r.value)
  {
    if |t| == 10 && AllDigits(t[..4]) && t[4] == '-' && AllDigits(t[5..7]) && t[7] == '-' && AllDigits(t[8..])
    then MakeDate(NumberValue(t[..4]), NumberValue(t[5..7]), NumberValue(t[8..]))
    else None
  }

  /** An optional `time-secfrac` of three or six digits, as microseconds, and the text after it. */
  function IsoFraction(t: string): (r: Option<(nat, string)>)
    ensures r.Some? ==> r.value.0 < 1000000
  {
    if |t| > 0 && t[0] == '.' then
      var k := DigitRun(t[1..]);
      var digits := t[1..][..k];
      if k == 3 then Some((NumberValue(digits) * 1000, t[1 + k..]))
      else if k == 6 then Some((NumberValue(digits), t[1 + k..]))
      else None
    else Some((0, t))
  }

  /** An optional `time-numoffset` `+HH:MM` or `-HH:MM`, in minutes, ending the text. */
  function IsoOffset(t: string): (r: Option<Option<int>>)
    ensures r.Some? && r.value.Some? ==> -1440 < r.value.value < 1440
  {
    if t == "" then Some(None)
    else if |t| == 6 && (t[0] == '+' || t[0] == '-') && t[3] == ':' then
      match (TwoDigits(t[1..3], 23), TwoDigits(t[4..], 59))
      case (Some(h), Some(m)) =>
        var minutes: int := h * 60 + m;
        Some(Some(if t[0] == '-' then -minutes else minutes))
      case _ => None
    else None
  }

  /** `YYYY-MM-DDTHH:MM:SS[.fff|.ffffff][+HH:MM|-HH:MM]`. */
  function IsoDateTime(t: string): (r: Option<DateTime>)
    ensures r.Some? ==> ValidDateTime(r.value)
  {
    if |t| < 19 || t[10] != 'T' || t[13] != ':' || t[16] != ':' then None
    else
      match (IsoDate(t[..10]), TwoDigits(t[11..13], 23), TwoDigits(t[14..16], 59),
             TwoDigits(t[17..19], 59), IsoFraction(t[19..]))
      case (Some(d), Some(h), Some(mi), Some(s), Some((us, rest))) =>
        (match IsoOffset(rest)
         case Some(o) => Some(DateTime(d, h, mi, s, us, o))
         case None => None)
      case _ => None
  }

  // ---------------------------------------------------------------------------
  // The three normalisers
  // ---------------------------------------------------------------------------

  /**
   * `parse_date`: None for a falsy value; otherwise the date read from the text
   * before the first "T". A non-string has no `split` (AttributeError) and a
   * malformed date raises ValueError; both are caught and give None.
   */
  function ParseDate(v: RawValue): (r: Option<Date>)
    ensures r.Some? ==> v.JStr? && v.s != "" && ValidDate(r.value)
  {
    if !Truthy(v) then None
    else
      match v
      case JStr(s) => StrptimeDate(s[..IndexOf(s, 'T')])
      case _ => None
  }

  /** The TypeError `"T" in value` raises for a value that is not a string. */
  function NotIterable(v: RawValue): string {
    match v
    case JBool(_) => "argument of type 'bool' is not iterable"
    case JNum(n) => if n.scale == 0 then "argument of type 'int' is not iterable"
                    else "argument of type 'float' is not iterable"
    case _ => "argument is not iterable"
  }

  /**
   * `parse_datetime`: None for a falsy value; a string holding a "T" is read as
   * RFC 3339 with every "Z" replaced by "+00:00", any other string as
   * `%Y-%m-%d %H:%M:%S`. A truthy non-string fails the `in` test with a
   * TypeError the function does not catch.
   */
  function ParseDateTime(v: RawValue): (r: Result<Option<DateTime>, string>)
    ensures r.Failure? <==> Truthy(v) && !v.JStr?
    ensures r.Success? && r.value.Some? ==> v.JStr? && v.s != "" && ValidDateTime(r.value.value)
  {
    if !Truthy(v) then Success(None)
    else
      match v
      case JStr(s) =>
        if 'T' in s then Success(IsoDateTime(ReplaceAll(s, 'Z', "+00:00")))
        else Success(StrptimeDateTime(s))
      case _ => Failure(NotIterable(v))
  }

  /** The message of the `InvalidOperation` that `Decimal()` raises on malformed text. */
  const ConversionSyntax := "[<class 'decimal.ConversionSyntax'>]"

  /** Digits with an optional point and more digits, at least one digit in all: coefficient and scale. */
  function UnsignedDecimal(body: string): Option<(nat, nat)>
  {
    var i := DigitRun(body);
    var whole := body[..i];
    var rest := body[i..];
    if rest == "" then
      if i == 0 then None else Some((NumberValue(whole), 0))
    else if rest[0] != '.' || !AllDigits(rest[1..]) || (i == 0 && |rest| == 1) then None
    else
      var digits := whole + rest[1..];
      assert AllDigits(digits);
      Some((NumberValue(digits), |rest| - 1))
  }

  /** `Decimal(text)` for the plain notation: an optional sign, then `UnsignedDecimal`. */
  function DecimalText(s: string): (r: Option<Decimal>)
  {
    var negative := |s| > 0 && s[0] == '-';
    var body := if |s| > 0 && (s[0] == '-' || s[0] == '+') then s[1..] else s;
    match UnsignedDecimal(body)
    case None => None
    case Some((magnitude, scale)) =>
      var m: int := magnitude;
      Some(Decimal(if negative then -m else m, scale))
  }

  /**
   * The `account_balance` conversion `Decimal(str(v)) if v is not None else
   * None`: null gives None, a number its exact decimal, a string its parsed
   * decimal; a malformed string or a boolean ("True", "False") raises.
   */
  function ParseBalance(v: RawValue): (r: Result<Option<Decimal>, string>)
    ensures r == Success(None) <==> v.JNull?
    ensures v.JNum? ==> r == Success(Some(v.n))
    ensures v.JBool? ==> r == Failure(ConversionSyntax)
    ensures r.Failure? ==> r.error == ConversionSyntax && (v.JBool? || (v.JStr? && DecimalText(v.s) == None))
  {
    match v
    case JNull => Success(None)
    case JNum(n) => Success(Some(n))
    case JBool(_) => Failure(ConversionSyntax)
    case JStr(s) =>
      match DecimalText(s)
      case Some(d) => Success(Some(d))
      case None => Failure(ConversionSyntax)
  }
}
