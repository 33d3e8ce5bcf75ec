/**
 * The canonical renderings of dates, timestamps and decimals (what Python's
 * `date.isoformat()`, `datetime.isoformat()` and plain decimal notation
 * print), and the round trips that show the normalisers read them back.
 */
module RoundTrip {
  import opened Wrappers
  import opened Text
  import opened Values
  import opened Normalize

  lemma Pow10Values()
    ensures Pow10(2) == 100 && Pow10(4) == 10000 && Pow10(6) == 1000000
  {
    assert Pow10(1) == 10;
    assert Pow10(3) == 1000;
    assert Pow10(5) == 100000;
  }

  // ---------------------------------------------------------------------------
  // Renderings
  // ---------------------------------------------------------------------------

  /** `YYYY-MM-DD`, the `full-date` of RFC 3339. */
  function FormatDate(d: Date): (s: string)
    requires ValidDate(d)
    ensures |s| == 10
  {
    Pow10Values();
    Pad(d.year, 4) + "-" + Pad(d.month, 2) + "-" + Pad(d.day, 2)
  }

  function FormatClock(t: DateTime): (s: string)
    requires ValidDateTime(t)
    ensures |s| == 8
  {
    Pow10Values();
    Pad(t.hour, 2) + ":" + Pad(t.minute, 2) + ":" + Pad(t.second, 2)
  }

  /** Six fractional digits when there are microseconds, nothing otherwise. */
  function FormatFraction(micro: nat): string
    requires micro < 1000000
  {
    Pow10Values();
    if micro == 0 then "" else "." + Pad(micro, 6)
  }

  /** `±HH:MM`: a sign, two-digit hours and two-digit minutes. */
  function OffsetSpelling(sign: char, h: nat, m: nat): (s: string)
    requires h <= 23 && m <= 59
    ensures |s| == 6 && s[0] == sign
  {
    Pow10Values();
    [sign] + Pad(h, 2) + ":" + Pad(m, 2)
  }

  /** The UTC offset in minutes as `±HH:MM`, nothing for a naive timestamp. */
  function FormatOffset(offset: Option<int>): string
    requires offset.Some? ==> -1440 < offset.value < 1440
  {
    match offset
    case None => ""
    case Some(o) => OffsetSpelling(if o < 0 then '-' else '+', Abs(o) / 60, Abs(o) % 60)
  }

  /** `datetime.isoformat()`: `YYYY-MM-DDTHH:MM:SS[.ffffff][+HH:MM]`. */
  function FormatIso(t: DateTime): string
    requires ValidDateTime(t)
  {
    FormatDate(t.date) + "T" + FormatClock(t) + FormatFraction(t.micro) + FormatOffset(t.offset)
  }

  /** `YYYY-MM-DD HH:MM:SS`, the shape the non-ISO branch of `parse_datetime` expects. */
  function FormatPlain(t: DateTime): string
    requires ValidDateTime(t)
  {
    FormatDate(t.date) + " " + FormatClock(t)
  }

  /** Plain decimal notation: sign, integer digits, and `scale` fractional digits. */
  function FormatDecimal(d: Decimal): string {
    (if d.mantissa < 0 then "-" else "") + FormatMagnitude(Abs(d.mantissa), d.scale)
  }

  function Abs(x: int): nat { if x < 0 then -x else x }

  /** The unsigned part of `FormatDecimal`: `a / 10^scale` in integer digits and `scale` fractional digits. */
  function FormatMagnitude(a: nat, scale: nat): string {
    var p := Pow10(scale);
    DivMod(a, p);
    Digits(a / p) + (if scale == 0 then "" else "." + Pad(a % p, scale))
  }

  lemma DivMod(a: nat, p: nat)
    requires p >= 1
    ensures 0 <= a % p < p && a / p >= 0 && (a / p) * p + a % p == a
  {
  }

  // ---------------------------------------------------------------------------
  // Scanning helpers: what IndexOf, DigitRun and SpaceRun return is fixed by
  // the first position that stops them
  // ---------------------------------------------------------------------------

  lemma {:induction false} IndexOfAt(s: string, c: char, k: nat)
    requires k <= |s| && (k < |s| ==> s[k] == c)
    requires forall j | 0 <= j < k :: s[j] != c
    ensures IndexOf(s, c) == k
    decreases k
  {
    if k > 0 {
      assert s[0] != c;
      IndexOfAt(s[1..], c, k - 1);
    }
  }

  lemma {:induction false} DigitRunAt(s: string, k: nat)
    requires k <= |s| && AllDigits(s[..k]) && (k < |s| ==> !IsDigit(s[k]))
    ensures DigitRun(s) == k
    decreases k
  {
    if k > 0 {
      assert IsDigit(s[..k][0]);
      assert s[1..][..k - 1] == s[..k][1..];
      DigitRunAt(s[1..], k - 1);
    }
  }

  lemma {:induction false} SpaceRunAt(s: string, k: nat)
    requires k <= |s| && (forall j | 0 <= j < k :: IsSpace(s[j])) && (k < |s| ==> !IsSpace(s[k]))
    ensures SpaceRun(s) == k
    decreases k
  {
    if k > 0 {
      assert IsSpace(s[0]);
      SpaceRunAt(s[1..], k - 1);
    }
  }

  lemma DayFieldDigits(t: string)
    requires |t| == 2 && AllDigits(t) && 1 <= NumberValue(t) <= 31
    ensures DayField(t) == Some(NumberValue(t))
  {
    assert IsDigit(t[0]);
  }

  lemma NoCharInDigits(s: string, c: char)
    requires AllDigits(s) && !IsDigit(c)
    ensures c !in s
  {
  }

  // ---------------------------------------------------------------------------
  // Dates
  // ---------------------------------------------------------------------------

  /** A rendered date is its zero-padded year, month and day fields joined by dashes. */
  lemma FormatDateParts(d: Date) returns (y: string, m: string, dd: string)
    requires ValidDate(d)
    ensures FormatDate(d) == y + "-" + m + "-" + dd
    ensures |y| == 4 && AllDigits(y) && NumberValue(y) == d.year
    ensures |m| == 2 && AllDigits(m) && NumberValue(m) == d.month
    ensures |dd| == 2 && AllDigits(dd) && NumberValue(dd) == d.day
  {
    Pow10Values();
    y, m, dd := Pad(d.year, 4), Pad(d.month, 2), Pad(d.day, 2);
  }

  /** A rendered date holds no character other than digits and dashes. */
  lemma DateHasNo(d: Date, c: char)
    requires ValidDate(d) && !IsDigit(c) && c != '-'
    ensures c !in FormatDate(d)
  {
    var y, m, dd := FormatDateParts(d);
    NoCharInDigits(y, c);
    NoCharInDigits(m, c);
    NoCharInDigits(dd, c);
  }

  /** `strptime(..., "%Y-%m-%d")` of zero-padded fields naming a valid date. */
  lemma StrptimeDateOfFields(y: string, m: string, dd: string, d: Date)
    requires ValidDate(d)
    requires |y| == 4 && AllDigits(y) && NumberValue(y) == d.year
    requires |m| == 2 && AllDigits(m) && NumberValue(m) == d.month
    requires |dd| == 2 && AllDigits(dd) && NumberValue(dd) == d.day
    ensures StrptimeDate(y + "-" + m + "-" + dd) == Some(d)
  {
    var t := y + "-" + m + "-" + dd;
    assert t[..4] == y;
    var rest := t[5..];
    assert rest == m + "-" + dd;
    assert IsDigit(m[0]) && IsDigit(m[1]);
    IndexOfAt(rest, '-', 2);
    assert rest[..2] == m;
    assert rest[3..] == dd;
    DayFieldDigits(dd);
  }

  /** `strptime(..., "%Y-%m-%d")` reads a rendered date back. */
  lemma StrptimeDateReadsFormatDate(d: Date)
    requires ValidDate(d)
    ensures StrptimeDate(FormatDate(d)) == Some(d)
  {
    var y, m, dd := FormatDateParts(d);
    StrptimeDateOfFields(y, m, dd, d);
  }

  /**
   * `parse_date` of a rendered date, alone or followed by a "T" and anything
   * (the time part of a timestamp), is that date.
   */
  lemma ParseDateRoundTrip(d: Date, tail: string)
    requires ValidDate(d)
    requires tail == "" || tail[0] == 'T'
    ensures ParseDate(JStr(FormatDate(d) + tail)) == Some(d)
  {
    var ds := FormatDate(d);
    var s := ds + tail;
    DateHasNo(d, 'T');
    forall j | 0 <= j < 10 ensures s[j] != 'T' {
      assert s[j] == ds[j];
    }
    IndexOfAt(s, 'T', 10);
    assert s[..10] == ds;
    StrptimeDateReadsFormatDate(d);
  }

  /**
   * The `full-date` reader accepts exactly the zero-padded renderings of
   * valid dates: reading is the inverse of rendering in both directions.
   */
  lemma IsoDateExactly(t: string, d: Date)
    ensures IsoDate(t) == Some(d) <==> ValidDate(d) && t == FormatDate(d)
  {
    if IsoDate(t) == Some(d) {
      IsoDateIsCanonical(t, d);
    }
    if ValidDate(d) && t == FormatDate(d) {
      IsoDateReadsFormatDate(d);
    }
  }

  lemma IsoDateIsCanonical(t: string, d: Date)
    requires IsoDate(t) == Some(d)
    ensures ValidDate(d) && t == FormatDate(d)
  {
    Pow10Values();
    var y, m, dd := t[..4], t[5..7], t[8..];
    assert d == Date(NumberValue(y), NumberValue(m), NumberValue(dd));
    PadOfNumberValue(y);
    PadOfNumberValue(m);
    PadOfNumberValue(dd);
    assert Pad(d.year, 4) == y && Pad(d.month, 2) == m && Pad(d.day, 2) == dd;
    assert FormatDate(d) == y + "-" + m + "-" + dd;
    assert t == y + "-" + m + "-" + dd;
  }

  /**
   * Every RFC 3339 `full-date` (the shape the `strptime` format is meant to
   * read), alone or followed by a "T" and a time part, gives `parse_date` the
   * date it names.
   */
  lemma ParseDateAcceptsFullDate(t: string, d: Date, tail: string)
    requires IsoDate(t) == Some(d)
    requires tail == "" || tail[0] == 'T'
    ensures ParseDate(JStr(t + tail)) == Some(d)
  {
    IsoDateExactly(t, d);
    ParseDateRoundTrip(d, tail);
  }

  /** A text that is not a date gives None, not an error. */
  lemma MalformedDateIsNull()
    ensures ParseDate(JStr("not-a-date")) == None
  {
    ParseDateNeedsDigit("not-a-date");
  }

  /** A text whose first character is not a digit is not a date. */
  lemma ParseDateNeedsDigit(s: string)
    requires |s| > 0 && !IsDigit(s[0])
    ensures ParseDate(JStr(s)) == None
  {
    var k := IndexOf(s, 'T');
    if k == 0 {
      assert s[..k] == "";
    } else {
      assert s[..k][0] == s[0];
      StrptimeDateNeedsDigit(s[..k]);
    }
  }

  /** `%Y` needs a digit at the very start. */
  lemma StrptimeDateNeedsDigit(t: string)
    requires |t| > 0 && !IsDigit(t[0])
    ensures StrptimeDate(t) == None
  {
    if |t| >= 5 {
      assert t[..4][0] == t[0];
    }
  }

  // ---------------------------------------------------------------------------
  // Timestamps
  // ---------------------------------------------------------------------------

  lemma IsoDateReadsFormatDate(d: Date)
    requires ValidDate(d)
    ensures IsoDate(FormatDate(d)) == Some(d)
  {
    var y, m, dd := FormatDateParts(d);
    var t := y + "-" + m + "-" + dd;
    assert t[..4] == y && t[5..7] == m && t[8..] == dd;
  }

  lemma IsoFractionReads(micro: nat, tail: string)
    requires micro < 1000000
    requires tail == "" || tail[0] == '+' || tail[0] == '-'
    ensures IsoFraction(FormatFraction(micro) + tail) == Some((micro, tail))
  {
    Pow10Values();
    var t := FormatFraction(micro) + tail;
    if micro == 0 {
      assert t == tail;
    } else {
      var p := Pad(micro, 6);
      assert t == "." + p + tail;
      assert t[1..] == p + tail;
      assert (p + tail)[..6] == p;
      DigitRunAt(t[1..], 6);
      assert t[1..][..6] == p;
      assert t[1 + 6..] == tail;
    }
  }

  lemma IsoOffsetReads(offset: Option<int>)
    requires offset.Some? ==> -1440 < offset.value < 1440
    ensures IsoOffset(FormatOffset(offset)) == Some(offset)
  {
    if offset.Some? {
      var o := offset.value;
      var h, m := MinutesSplit(Abs(o));
      var sign := if o < 0 then '-' else '+';
      assert FormatOffset(offset) == OffsetSpelling(sign, h, m);
      OffsetSpellingReads(sign, h, m);
      SignedOfSplit(o, Abs(o), sign, h, m);
    }
  }

  lemma SignedOfSplit(o: int, a: nat, sign: char, h: nat, m: nat)
    requires a == Abs(o) && sign == (if o < 0 then '-' else '+') && h * 60 + m == a
    ensures var minutes: int := h * 60 + m;
      (if sign == '-' then -minutes else minutes) == o
  {
  }

  /** Minutes below a day split into hours below 24 and minutes below 60. */
  lemma MinutesSplit(a: nat) returns (h: nat, m: nat)
    requires a < 1440
    ensures h == a / 60 && m == a % 60 && h <= 23 && m <= 59 && h * 60 + m == a
  {
    h, m := a / 60, a % 60;
  }

  /** Exactly two digits read the zero-padded rendering of a value at most `hi` back. */
  lemma TwoDigitsOfPad(v: nat, hi: nat)
    requires v <= hi < 100
    ensures Pow10(2) == 100 && TwoDigits(Pad(v, 2), hi) == Some(v)
  {
    Pow10Values();
  }

  lemma SpellingPads(sign: char, h: nat, m: nat)
    requires h <= 23 && m <= 59 && Pow10(2) == 100
    ensures OffsetSpelling(sign, h, m) == [sign] + Pad(h, 2) + ":" + Pad(m, 2)
  {
  }

  /** `fromisoformat` reads an offset spelling as the signed minutes it names. */
  lemma OffsetSpellingReads(sign: char, h: nat, m: nat)
    requires h <= 23 && m <= 59 && (sign == '+' || sign == '-')
    ensures var minutes: int := h * 60 + m;
      IsoOffset(OffsetSpelling(sign, h, m)) == Some(Some(if sign == '-' then -minutes else minutes))
  {
    TwoDigitsOfPad(h, 23);
    TwoDigitsOfPad(m, 59);
    SpellingPads(sign, h, m);
    IsoOffsetOfFields(sign, Pad(h, 2), Pad(m, 2), h, m);
  }

  /** `fromisoformat` reads a sign, two hour digits, a colon and two minute digits as signed minutes. */
  lemma IsoOffsetOfFields(sign: char, hh: string, mm: string, h: nat, m: nat)
    requires sign == '+' || sign == '-'
    requires TwoDigits(hh, 23) == Some(h) && TwoDigits(mm, 59) == Some(m)
    ensures var minutes: int := h * 60 + m;
      IsoOffset([sign] + hh + ":" + mm) == Some(Some(if sign == '-' then -minutes else minutes))
  {
    var t := [sign] + hh + ":" + mm;
    assert t[1..3] == hh && t[4..] == mm;
  }

  lemma FormatOffsetStart(offset: Option<int>)
    requires offset.Some? ==> -1440 < offset.value < 1440
    ensures FormatOffset(offset) == "" || FormatOffset(offset)[0] == '+' || FormatOffset(offset)[0] == '-'
  {
  }

  /** `fromisoformat` reads back what `isoformat` prints. */
  lemma IsoDateTimeReadsFormatIso(t: DateTime)
    requires ValidDateTime(t)
    ensures IsoDateTime(FormatIso(t)) == Some(t)
  {
    FormatIsoWithOffset(t);
    FormatOffsetStart(t.offset);
    IsoOffsetReads(t.offset);
    IsoReadsWithOffsetText(t, FormatOffset(t.offset));
  }

  /** A naive rendering followed by any offset text `fromisoformat` reads as the offset of `t` is read as `t`. */
  lemma IsoReadsWithOffsetText(t: DateTime, off: string)
    requires ValidDateTime(t)
    requires off == "" || off[0] == '+' || off[0] == '-'
    requires IsoOffset(off) == Some(t.offset)
    ensures IsoDateTime(FormatIso(t.(offset := None)) + off) == Some(t)
  {
    var naive := t.(offset := None);
    IsoDateReadsFormatDate(t.date);
    var hh, mi, ss := ClockParts(naive);
    IsoFractionReads(t.micro, off);
    assert FormatIso(naive) == FormatDate(t.date) + "T" + FormatClock(naive) + FormatFraction(t.micro) + "";
    IsoShape(FormatDate(t.date), FormatClock(naive), hh, mi, ss, FormatFraction(t.micro), off);
    IsoDateTimeOfFields(FormatDate(t.date), hh, mi, ss, FormatFraction(t.micro) + off, t);
  }

  lemma IsoShape(ds: string, clock: string, hh: string, mi: string, ss: string, fr: string, off: string)
    requires clock == hh + ":" + mi + ":" + ss
    ensures (ds + "T" + clock + fr + "") + off == ds + "T" + hh + ":" + mi + ":" + ss + (fr + off)
  {
  }

  /** The three clock fields of a rendering, each read back by two-digit parsing. */
  lemma ClockParts(t: DateTime) returns (hh: string, mi: string, ss: string)
    requires ValidDateTime(t)
    ensures FormatClock(t) == hh + ":" + mi + ":" + ss
    ensures TwoDigits(hh, 23) == Some(t.hour) && TwoDigits(mi, 59) == Some(t.minute) && TwoDigits(ss, 59) == Some(t.second)
  {
    assert Pow10(2) == 100 by { Pow10Values(); }
    hh, mi, ss := Pad(t.hour, 2), Pad(t.minute, 2), Pad(t.second, 2);
    assert TwoDigits(hh, 23) == Some(t.hour) by { TwoDigitsOfPad(t.hour, 23); }
    assert TwoDigits(mi, 59) == Some(t.minute) by { TwoDigitsOfPad(t.minute, 59); }
    assert TwoDigits(ss, 59) == Some(t.second) by { TwoDigitsOfPad(t.second, 59); }
    assert FormatClock(t) == hh + ":" + mi + ":" + ss by { ClockSpelling(t); }
  }

  lemma ClockSpelling(t: DateTime)
    requires ValidDateTime(t)
    ensures Pow10(2) == 100 && FormatClock(t) == Pad(t.hour, 2) + ":" + Pad(t.minute, 2) + ":" + Pad(t.second, 2)
  {
    Pow10Values();
  }

  /** `fromisoformat` of a text assembled from parts it reads as the fields of `t`. */
  lemma IsoDateTimeOfFields(ds: string, hh: string, mi: string, ss: string, rest: string, t: DateTime)
    requires ValidDateTime(t)
    requires |ds| == 10 && IsoDate(ds) == Some(t.date)
    requires TwoDigits(hh, 23) == Some(t.hour) && TwoDigits(mi, 59) == Some(t.minute) && TwoDigits(ss, 59) == Some(t.second)
    requires IsoFraction(rest).Some? && IsoFraction(rest).value.0 == t.micro
    requires IsoOffset(IsoFraction(rest).value.1) == Some(t.offset)
    ensures IsoDateTime(ds + "T" + hh + ":" + mi + ":" + ss + rest) == Some(t)
  {
    var s := ds + "T" + hh + ":" + mi + ":" + ss + rest;
    assert s[..10] == ds;
    assert s[11..13] == hh;
    assert s[14..16] == mi;
    assert s[17..19] == ss;
    assert s[19..] == rest;
  }

  lemma FormatIsoHasNoZ(t: DateTime)
    requires ValidDateTime(t)
    ensures 'Z' !in FormatIso(t)
  {
    DateHasNo(t.date, 'Z');
    ClockHasNo(t, 'Z');
    FractionHasNo(t.micro, 'Z');
    OffsetHasNo(t.offset, 'Z');
  }

  /** A rendered clock holds no character other than digits and colons. */
  lemma ClockHasNo(t: DateTime, c: char)
    requires ValidDateTime(t) && !IsDigit(c) && c != ':'
    ensures c !in FormatClock(t)
  {
    Pow10Values();
    var hh, mm, ss := Pad(t.hour, 2), Pad(t.minute, 2), Pad(t.second, 2);
    assert FormatClock(t) == hh + ":" + mm + ":" + ss;
    NoCharInDigits(hh, c);
    NoCharInDigits(mm, c);
    NoCharInDigits(ss, c);
  }

  /** A rendered fraction holds no character other than digits and the point. */
  lemma FractionHasNo(micro: nat, c: char)
    requires micro < 1000000 && !IsDigit(c) && c != '.'
    ensures c !in FormatFraction(micro)
  {
    Pow10Values();
    if micro != 0 {
      NoCharInDigits(Pad(micro, 6), c);
    }
  }

  /** A rendered offset holds no character other than digits, a sign and a colon. */
  lemma OffsetHasNo(offset: Option<int>, c: char)
    requires offset.Some? ==> -1440 < offset.value < 1440
    requires !IsDigit(c) && c != '+' && c != '-' && c != ':'
    ensures c !in FormatOffset(offset)
  {
    if offset.Some? {
      var o := offset.value;
      var h, m := MinutesSplit(Abs(o));
      var sign := if o < 0 then '-' else '+';
      assert FormatOffset(offset) == OffsetSpelling(sign, h, m);
      Pow10Values();
      SpellingPads(sign, h, m);
      CharNotInSpelling([sign], Pad(h, 2), Pad(m, 2), c);
    }
  }

  lemma CharNotInSpelling(sg: string, hh: string, mm: string, c: char)
    requires |sg| == 1 && c != sg[0] && c != ':' && !IsDigit(c) && AllDigits(hh) && AllDigits(mm)
    ensures c !in sg + hh + ":" + mm
  {
    NoCharInDigits(hh, c);
    NoCharInDigits(mm, c);
  }

  /** `parse_datetime` of an `isoformat()` rendering is the timestamp itself. */
  lemma ParseDateTimeIsoRoundTrip(t: DateTime)
    requires ValidDateTime(t)
    ensures ParseDateTime(JStr(FormatIso(t))) == Success(Some(t))
  {
    IsoHasT(t);
    FormatIsoHasNoZ(t);
    IsoDateTimeReadsFormatIso(t);
    IsoTextParse(FormatIso(t), t);
  }

  /** A text with a "T" and no "Z" that `fromisoformat` reads as `t` is parsed as `t`. */
  lemma IsoTextParse(s: string, t: DateTime)
    requires |s| > 10 && s[10] == 'T' && 'Z' !in s && IsoDateTime(s) == Some(t)
    ensures ParseDateTime(JStr(s)) == Success(Some(t))
  {
    assert 'T' in s;
  }

  /** A trailing "Z" is read as the UTC offset +00:00. */
  lemma ParseDateTimeZulu(t: DateTime)
    requires ValidDateTime(t) && t.offset == Some(0)
    ensures ParseDateTime(JStr(FormatIso(t.(offset := None)) + "Z")) == Success(Some(t))
  {
    var naive := t.(offset := None);
    var s := FormatIso(naive) + "Z";
    IsoHasT(naive);
    assert s[10] == 'T';
    ZuluReplaced(naive);
    ZuluReads();
    IsoReadsWithOffsetText(t, "+00:00");
  }

  lemma ZuluReads()
    ensures IsoOffset("+00:00") == Some(Some(0))
  {
    assert TwoDigits("00", 23) == Some(0) && TwoDigits("00", 59) == Some(0);
    IsoOffsetOfFields('+', "00", "00", 0, 0);
    assert "+00:00" == ['+'] + "00" + ":" + "00";
  }

  lemma IsoHasT(t: DateTime)
    requires ValidDateTime(t)
    ensures |FormatIso(t)| > 10 && FormatIso(t)[10] == 'T'
  {
  }

  /** Replacing "Z" in a rendering followed by "Z" touches only that last character. */
  lemma ZuluReplaced(t: DateTime)
    requires ValidDateTime(t)
    ensures ReplaceAll(FormatIso(t) + "Z", 'Z', "+00:00") == FormatIso(t) + "+00:00"
  {
    FormatIsoHasNoZ(t);
    ReplaceAllConcat(FormatIso(t), "Z", 'Z', "+00:00");
    assert ReplaceAll("Z", 'Z', "+00:00") == "+00:00";
  }

  /** A rendering is its naive rendering followed by its offset. */
  lemma FormatIsoWithOffset(t: DateTime)
    requires ValidDateTime(t)
    ensures FormatIso(t) == FormatIso(t.(offset := None)) + FormatOffset(t.offset)
  {
  }

  lemma StrptimeClockReads(t: DateTime)
    requires ValidDateTime(t)
    ensures StrptimeClock(FormatClock(t)) == Some(Clock(t.hour, t.minute, t.second))
  {
    Pow10Values();
    var c := FormatClock(t);
    var hh, mi, ss := Pad(t.hour, 2), Pad(t.minute, 2), Pad(t.second, 2);
    assert c == hh + ":" + (mi + ":" + ss);
    IndexOfAt(c, ':', 2);
    var rest := c[3..];
    assert rest == mi + ":" + ss;
    IndexOfAt(rest, ':', 2);
    assert c[..2] == hh;
    assert rest[..2] == mi;
    assert rest[3..] == ss;
  }

  lemma FormatPlainHasNoT(t: DateTime)
    requires ValidDateTime(t)
    ensures 'T' !in FormatPlain(t)
  {
    DateHasNo(t.date, 'T');
    ClockHasNo(t, 'T');
  }

  /** The text after the second dash of a plain rendering: the day, a space, the clock. */
  lemma StrptimeDayAndClock(dd: string, cl: string)
    requires |dd| == 2 && AllDigits(dd) && 1 <= NumberValue(dd) <= 31
    requires |cl| >= 1 && IsDigit(cl[0])
    ensures var s := dd + " " + cl;
      && DayTokenLength(s) == 2
      && DayField(s[..2]) == Some(NumberValue(dd))
      && SpaceRun(s[2..]) == 1
      && s[2..][1..] == cl
  {
    var s := dd + " " + cl;
    assert s[..2] == dd;
    assert IsDigit(s[0]);
    DigitRunAt(s, 2);
    DayFieldDigits(dd);
    var afterDay := s[2..];
    assert afterDay == " " + cl;
    SpaceRunAt(afterDay, 1);
  }

  /** `strptime(y-m-dd cl, "%Y-%m-%d %H:%M:%S")` for zero-padded fields and a single space. */
  lemma StrptimeDateTimeParts(y: string, m: string, dd: string, cl: string, c: Clock)
    requires |y| == 4 && AllDigits(y)
    requires |m| == 2 && AllDigits(m) && 1 <= NumberValue(m) <= 12
    requires |dd| == 2 && AllDigits(dd) && 1 <= NumberValue(dd) <= 31
    requires ValidDate(Date(NumberValue(y), NumberValue(m), NumberValue(dd)))
    requires |cl| >= 1 && IsDigit(cl[0]) && StrptimeClock(cl) == Some(c)
    ensures StrptimeDateTime(y + "-" + m + "-" + dd + " " + cl)
         == Some(DateTime(Date(NumberValue(y), NumberValue(m), NumberValue(dd)), c.hour, c.minute, c.second, 0, None))
  {
    PlainDateCut(y, m, dd, cl);
    StrptimeDayAndClock(dd, cl);
  }

  /** Where `strptime` cuts `y-m-dd cl`: the year, the month up to the second dash, and the rest. */
  lemma PlainDateCut(y: string, m: string, dd: string, cl: string)
    requires |y| == 4 && |m| == 2 && AllDigits(m)
    ensures var s := y + "-" + m + "-" + dd + " " + cl;
      && |s| >= 5 && s[..4] == y && s[4] == '-'
      && IndexOf(s[5..], '-') == 2 && s[5..][..2] == m && s[5..][3..] == dd + " " + cl
  {
    var s := y + "-" + m + "-" + dd + " " + cl;
    assert s[..4] == y;
    var rest := s[5..];
    assert rest == m + "-" + (dd + " " + cl);
    assert IsDigit(m[0]) && IsDigit(m[1]);
    IndexOfAt(rest, '-', 2);
    assert rest[..2] == m;
    assert rest[3..] == dd + " " + cl;
  }

  /** `parse_datetime` of `YYYY-MM-DD HH:MM:SS` is the naive timestamp it names. */
  lemma ParseDateTimePlainRoundTrip(t: DateTime)
    requires ValidDateTime(t) && t.micro == 0 && t.offset == None
    ensures ParseDateTime(JStr(FormatPlain(t))) == Success(Some(t))
  {
    Pow10Values();
    var y, m, dd := Pad(t.date.year, 4), Pad(t.date.month, 2), Pad(t.date.day, 2);
    var cl := FormatClock(t);
    assert FormatPlain(t) == y + "-" + m + "-" + dd + " " + cl;
    FormatPlainHasNoT(t);
    assert cl[0] == Pad(t.hour, 2)[0];
    assert IsDigit(Pad(t.hour, 2)[0]);
    StrptimeClockReads(t);
    StrptimeDateTimeParts(y, m, dd, cl, Clock(t.hour, t.minute, t.second));
  }

  /** The date of a timestamp survives `parse_date`, which drops the time part. */
  lemma ParseDateOfTimestamp(t: DateTime)
    requires ValidDateTime(t)
    ensures ParseDate(JStr(FormatIso(t))) == Some(t.date)
  {
    var tail := "T" + FormatClock(t) + FormatFraction(t.micro) + FormatOffset(t.offset);
    assert FormatIso(t) == FormatDate(t.date) + tail;
    ParseDateRoundTrip(t.date, tail);
  }

  // ---------------------------------------------------------------------------
  // Decimals
  // ---------------------------------------------------------------------------

  lemma UnsignedDecimalParts(w: string, f: string, point: bool)
    requires 1 <= |w| && AllDigits(w) && AllDigits(f)
    requires !point ==> f == ""
    ensures AllDigits(w + f)
    ensures UnsignedDecimal(w + (if point then "." + f else "")) == Some((NumberValue(w + f), |f|))
  {
    var tail := if point then "." + f else "";
    var body := w + tail;
    assert body[..|w|] == w;
    DigitRunAt(body, |w|);
    assert body[|w|..] == tail;
    NumberValueConcat(w, f);
    if !point {
      assert w + f == w;
    } else {
      assert tail[1..] == f;
    }
  }

  lemma DecimalTextNegative(body: string, magnitude: nat, scale: nat)
    requires |body| >= 1 && IsDigit(body[0]) && UnsignedDecimal(body) == Some((magnitude, scale))
    ensures DecimalText("-" + body) == Some(Decimal(-(magnitude as int), scale))
  {
    assert ("-" + body)[1..] == body;
  }

  lemma DecimalTextNonNegative(body: string, magnitude: nat, scale: nat)
    requires |body| >= 1 && IsDigit(body[0]) && UnsignedDecimal(body) == Some((magnitude, scale))
    ensures DecimalText(body) == Some(Decimal(magnitude, scale))
  {
  }

  /** The unsigned reader takes a rendered magnitude back to the coefficient and scale. */
  lemma MagnitudeRoundTrip(a: nat, scale: nat)
    ensures var body := FormatMagnitude(a, scale);
      |body| >= 1 && IsDigit(body[0]) && UnsignedDecimal(body) == Some((a, scale))
  {
    if scale == 0 {
      WholeMagnitudeRoundTrip(a);
    } else {
      FractionalMagnitudeRoundTrip(a, scale);
    }
  }

  lemma WholeMagnitudeRoundTrip(a: nat)
    ensures var body := FormatMagnitude(a, 0);
      |body| >= 1 && IsDigit(body[0]) && UnsignedDecimal(body) == Some((a, 0))
  {
    var w := Digits(a);
    assert Pow10(0) == 1 && a / 1 == a;
    assert FormatMagnitude(a, 0) == w;
    UnsignedDecimalParts(w, "", false);
    assert w + "" == w;
  }

  lemma FractionalMagnitudeRoundTrip(a: nat, scale: nat)
    requires scale > 0
    ensures var body := FormatMagnitude(a, scale);
      |body| >= 1 && IsDigit(body[0]) && UnsignedDecimal(body) == Some((a, scale))
  {
    var p := Pow10(scale);
    DivMod(a, p);
    var w, f := Digits(a / p), Pad(a % p, scale);
    var body := w + ("." + f);
    assert FormatMagnitude(a, scale) == body;
    assert body[0] == w[0];
    UnsignedDecimalParts(w, f, true);
    NumberValueConcat(w, f);
    assert NumberValue(w + f) == (a / p) * p + a % p;
  }

  /** `Decimal()` reads plain decimal notation back exactly: coefficient and scale. */
  lemma DecimalTextRoundTrip(d: Decimal)
    ensures DecimalText(FormatDecimal(d)) == Some(d)
  {
    var a := Abs(d.mantissa);
    var body := FormatMagnitude(a, d.scale);
    MagnitudeRoundTrip(a, d.scale);
    if d.mantissa < 0 {
      assert FormatDecimal(d) == "-" + body;
      DecimalTextNegative(body, a, d.scale);
    } else {
      assert FormatDecimal(d) == body;
      DecimalTextNonNegative(body, a, d.scale);
    }
  }

  /** A balance given as decimal text is kept exactly, never rounded through a float. */
  lemma ParseBalanceRoundTrip(d: Decimal)
    ensures ParseBalance(JStr(FormatDecimal(d))) == Success(Some(d))
  {
    DecimalTextRoundTrip(d);
  }

  /** "1234.5" is the exact decimal 12345 x 10^-1 (1234.50 at two places). */
  lemma BalanceExample()
    ensures ParseBalance(JStr("1234.5")) == Success(Some(Decimal(12345, 1)))
  {
    var w, f := "1234", "5";
    assert "1234.5" == w + ("." + f);
    assert NumberValue("1") == 1;
    assert NumberValue("12") == 12 by { assert "12"[..1] == "1"; }
    assert NumberValue("123") == 123 by { assert "123"[..2] == "12"; }
    assert NumberValue("1234") == 1234 by { assert "1234"[..3] == "123"; }
    assert NumberValue("12345") == 12345 by { assert "12345"[..4] == "1234"; }
    assert w + f == "12345";
    UnsignedDecimalParts(w, f, true);
    DecimalTextNonNegative("1234.5", 12345, 1);
  }
}
