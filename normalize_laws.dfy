/**
 * What a result of the normalisers says about the text it came from: every
 * date, timestamp or decimal they return is one the input text names, written
 * in one of the forms the reader accepts. With the round trips of
 * `RoundTrip`, reading and rendering are inverse in both directions.
 */
module NormalizeLaws {
  import opened Wrappers
  import opened Text
  import opened Values
  import opened Normalize
  import opened RoundTrip

  // ---------------------------------------------------------------------------
  // The accepted spellings of one field
  // ---------------------------------------------------------------------------

  /** A `%m`, `%H`, `%M` or `%S` field naming `v`: two digits, or one when `v` is below ten. */
  predicate FieldText(a: string, v: nat) {
    Pow10Values();
    v < 100 && (a == Pad(v, 2) || (v < 10 && a == Pad(v, 1)))
  }

  /** A `%d` field naming `v`: a `FieldText`, or a space and a nonzero digit. */
  predicate DayText(a: string, v: nat) {
    FieldText(a, v) || (1 <= v < 10 && a == " " + Pad(v, 1))
  }

  lemma NumFieldSound(t: string, lo: nat, hi: nat)
    requires hi < 100 && NumField(t, lo, hi).Some?
    ensures FieldText(t, NumField(t, lo, hi).value)
  {
    PadOfNumberValue(t);
  }

  lemma NumFieldComplete(t: string, v: nat, lo: nat, hi: nat)
    requires FieldText(t, v) && lo <= v <= hi
    ensures NumField(t, lo, hi) == Some(v)
  {
  }

  lemma SingleDigit(c: char)
    requires IsDigit(c)
    ensures NumberValue([c]) == DigitValue(c) && Pad(DigitValue(c), 1) == [c]
  {
    var s := [c];
    assert s[..0] == "" && s[0] == c;
    assert NumberValue(s) == DigitValue(c);
    PadOfNumberValue(s);
  }

  lemma DayFieldSound(t: string)
    requires DayField(t).Some?
    ensures DayText(t, DayField(t).value)
  {
    if |t| == 2 && t[0] == ' ' && IsDigit(t[1]) && t[1] != '0' {
      SingleDigit(t[1]);
      assert t == " " + [t[1]];
    } else {
      NumFieldSound(t, 1, 31);
    }
  }

  lemma DayFieldComplete(t: string, v: nat)
    requires DayText(t, v) && 1 <= v <= 31
    ensures DayField(t) == Some(v)
  {
    if FieldText(t, v) {
      assert IsDigit(t[0]);
    } else {
      var p := Pad(v, 1);
      assert t[1] == p[0] && [p[0]] == p;
      SingleDigit(p[0]);
    }
  }

  // ---------------------------------------------------------------------------
  // Dates
  // ---------------------------------------------------------------------------

  function DateText(year: nat, m: string, dd: string): string
    requires year < 10000
  {
    Pow10Values();
    Pad(year, 4) + "-" + m + "-" + dd
  }

  /** The texts `strptime(t, "%Y-%m-%d")` reads as `d`: the year in four digits, then month and day fields. */
  ghost predicate IsDateText(t: string, d: Date) {
    && ValidDate(d)
    && exists m, dd | FieldText(m, d.month) && DayText(dd, d.day) :: t == DateText(d.year, m, dd)
  }

  lemma StrptimeDateSound(t: string, d: Date)
    requires StrptimeDate(t) == Some(d)
    ensures IsDateText(t, d)
  {
    StrptimeDateParts(t, d);
    var rest := t[5..];
    var j := IndexOf(rest, '-');
    var m, dd := rest[..j], rest[j + 1..];
    NumFieldSound(m, 1, 12);
    DayFieldSound(dd);
    DateTextOfParts(t, j, d.year);
    IsDateTextIntro(t, d, m, dd);
  }

  /** Unpacking a text `strptime` accepts into the readings of its fields. */
  lemma StrptimeDateParts(t: string, d: Date)
    requires StrptimeDate(t) == Some(d)
    ensures |t| >= 5 && AllDigits(t[..4]) && t[4] == '-' && NumberValue(t[..4]) == d.year
    ensures var rest := t[5..];
      var j := IndexOf(rest, '-');
      && j < |rest|
      && NumField(rest[..j], 1, 12) == Some(d.month)
      && DayField(rest[j + 1..]) == Some(d.day)
  {
  }

  /** A text cut at its two dashes is its year, month and day parts joined again. */
  lemma DateTextOfParts(t: string, j: nat, year: nat)
    requires |t| >= 5 && AllDigits(t[..4]) && t[4] == '-' && NumberValue(t[..4]) == year
    requires j < |t[5..]| && t[5..][j] == '-'
    ensures year < 10000 && t == DateText(year, t[5..][..j], t[5..][j + 1..])
  {
    Pow10Values();
    PadOfNumberValue(t[..4]);
    var rest := t[5..];
    assert t == t[..4] + "-" + rest[..j] + "-" + rest[j + 1..];
  }

  lemma IsDateTextIntro(t: string, d: Date, m: string, dd: string)
    requires ValidDate(d) && FieldText(m, d.month) && DayText(dd, d.day)
    requires t == DateText(d.year, m, dd)
    ensures IsDateText(t, d)
  {
  }

  lemma StrptimeDateComplete(d: Date, m: string, dd: string)
    requires ValidDate(d) && FieldText(m, d.month) && DayText(dd, d.day)
    ensures StrptimeDate(DateText(d.year, m, dd)) == Some(d)
  {
    Pow10Values();
    MonthDayComplete(d, m, dd);
    YearThenRest(Pad(d.year, 4), d, m + "-" + dd, |m|);
    assert DateText(d.year, m, dd) == Pad(d.year, 4) + "-" + (m + "-" + dd);
  }

  /** `strptime` of a four-digit year, a dash, and a month and day that read as `d`. */
  lemma YearThenRest(y: string, d: Date, rest: string, j: nat)
    requires |y| == 4 && AllDigits(y) && NumberValue(y) == d.year && ValidDate(d)
    requires IndexOf(rest, '-') == j < |rest|
    requires NumField(rest[..j], 1, 12) == Some(d.month) && DayField(rest[j + 1..]) == Some(d.day)
    ensures StrptimeDate(y + "-" + rest) == Some(d)
  {
    var t := y + "-" + rest;
    assert t[..4] == y && t[4] == '-' && t[5..] == rest;
  }

  /** The text after the year's dash: the month up to the next dash, then the day. */
  lemma MonthDayComplete(d: Date, m: string, dd: string)
    requires ValidDate(d) && FieldText(m, d.month) && DayText(dd, d.day)
    ensures var rest := m + "-" + dd;
      && IndexOf(rest, '-') == |m| && rest[..|m|] == m && rest[|m| + 1..] == dd
      && NumField(m, 1, 12) == Some(d.month) && DayField(dd) == Some(d.day)
  {
    DigitsThenSeparator(m, '-', dd);
    NumFieldComplete(m, d.month, 1, 12);
    DayFieldComplete(dd, d.day);
  }

  /** A run of digits followed by a separator `c`: the first `c` is the one after the digits. */
  lemma DigitsThenSeparator(a: string, c: char, b: string)
    requires AllDigits(a) && !IsDigit(c)
    ensures var s := a + [c] + b;
      IndexOf(s, c) == |a| && s[..|a|] == a && s[|a| + 1..] == b
  {
    var s := a + [c] + b;
    forall j | 0 <= j < |a| ensures s[j] != c {
      assert s[j] == a[j];
    }
    IndexOfAt(s, c, |a|);
  }

  /** `strptime(t, "%Y-%m-%d")` gives `d` exactly when `t` is one of the spellings of `d`. */
  lemma StrptimeDateExactly(t: string, d: Date)
    ensures StrptimeDate(t) == Some(d) <==> IsDateText(t, d)
  {
    if StrptimeDate(t) == Some(d) {
      StrptimeDateSound(t, d);
    }
    if IsDateText(t, d) {
      var m, dd :| FieldText(m, d.month) && DayText(dd, d.day) && t == DateText(d.year, m, dd);
      StrptimeDateComplete(d, m, dd);
    }
  }

  /**
   * `parse_date` gives `d` exactly for a string whose text before the first
   * "T" spells `d`; every other value gives None.
   */
  lemma ParseDateExactly(v: RawValue, d: Date)
    ensures ParseDate(v) == Some(d) <==> v.JStr? && IsDateText(v.s[..IndexOf(v.s, 'T')], d)
  {
    if v.JStr? {
      StrptimeDateExactly(v.s[..IndexOf(v.s, 'T')], d);
    }
  }

  /** A string whose date part spells no date is stored as null. */
  lemma ParseDateNamesNoDate(s: string)
    requires forall d: Date :: !IsDateText(s[..IndexOf(s, 'T')], d)
    ensures ParseDate(JStr(s)) == None
  {
    if ParseDate(JStr(s)).Some? {
      ParseDateExactly(JStr(s), ParseDate(JStr(s)).value);
    }
  }

  // ---------------------------------------------------------------------------
  // Timestamps in the RFC 3339 shape
  // ---------------------------------------------------------------------------

  /** A `time-secfrac` naming `micro`: none for zero, six digits, or three for whole milliseconds. */
  predicate FractionText(f: string, micro: nat) {
    Pow10Values();
    && micro < 1000000
    && ((micro == 0 && f == "") || f == "." + Pad(micro, 6) || (micro % 1000 == 0 && f == "." + Pad(micro / 1000, 3)))
  }

  /** The offset `±(60 h + m)` minutes that `±HH:MM` names. */
  function SignedMinutes(sign: char, h: nat, m: nat): int {
    var minutes: int := h * 60 + m;
    if sign == '-' then -minutes else minutes
  }

  /**
   * A `time-numoffset` naming `offset`: nothing for a naive timestamp, or a
   * sign with hours and minutes (so UTC is both `+00:00` and `-00:00`).
   */
  ghost predicate OffsetText(o: string, offset: Option<int>) {
    || (o == "" && offset == None)
    || exists sign, h: nat, m: nat | (sign == '+' || sign == '-') && h <= 23 && m <= 59
         :: o == OffsetSpelling(sign, h, m) && offset == Some(SignedMinutes(sign, h, m))
  }

  function IsoText(x: DateTime, f: string, o: string): string
    requires ValidDateTime(x)
  {
    FormatDate(x.date) + "T" + FormatClock(x) + f + o
  }

  /** The texts the RFC 3339 reader takes as `x`: `isoformat()` up to the spelling of fraction and offset. */
  ghost predicate IsIsoText(t: string, x: DateTime) {
    && ValidDateTime(x)
    && exists f, o | FractionText(f, x.micro) && OffsetText(o, x.offset) :: t == IsoText(x, f, o)
  }

  lemma IsoFractionSound(t: string)
    requires IsoFraction(t).Some?
    ensures var (micro, rest) := IsoFraction(t).value;
      |rest| <= |t| && t == t[..|t| - |rest|] + rest && FractionText(t[..|t| - |rest|], micro)
  {
    Pow10Values();
    if |t| > 0 && t[0] == '.' {
      var k := DigitRun(t[1..]);
      var digits := t[1..][..k];
      PadOfNumberValue(digits);
      assert t[..1 + k] == "." + digits;
      assert t == t[..1 + k] + t[1 + k..];
      if k == 3 {
        assert (NumberValue(digits) * 1000) / 1000 == NumberValue(digits);
      }
    } else {
      assert t[..0] == "";
    }
  }

  lemma IsoOffsetSound(o: string)
    requires IsoOffset(o).Some?
    ensures OffsetText(o, IsoOffset(o).value)
  {
    if o != "" {
      IsoOffsetFields(o);
      SignedOffsetText(o);
    }
  }

  lemma SignedOffsetText(o: string)
    requires |o| == 6 && (o[0] == '+' || o[0] == '-') && o[3] == ':'
    requires AllDigits(o[1..3]) && AllDigits(o[4..])
    requires NumberValue(o[1..3]) <= 23 && NumberValue(o[4..]) <= 59
    ensures OffsetText(o, Some(SignedMinutes(o[0], NumberValue(o[1..3]), NumberValue(o[4..]))))
  {
    OffsetSpellingOfFields(o);
    OffsetTextIntro(o, o[0], NumberValue(o[1..3]), NumberValue(o[4..]));
  }

  lemma OffsetSpellingOfFields(o: string)
    requires |o| == 6 && (o[0] == '+' || o[0] == '-') && o[3] == ':'
    requires AllDigits(o[1..3]) && AllDigits(o[4..])
    requires NumberValue(o[1..3]) <= 23 && NumberValue(o[4..]) <= 59
    ensures o == OffsetSpelling(o[0], NumberValue(o[1..3]), NumberValue(o[4..]))
  {
    OffsetFields(o);
    PadOfNumberValue(o[1..3]);
    PadOfNumberValue(o[4..]);
  }

  lemma OffsetTextIntro(o: string, sign: char, h: nat, m: nat)
    requires (sign == '+' || sign == '-') && h <= 23 && m <= 59
    requires o == OffsetSpelling(sign, h, m)
    ensures OffsetText(o, Some(SignedMinutes(sign, h, m)))
  {
  }

  /** Unpacking an accepted `±HH:MM` into its sign and fields. */
  lemma IsoOffsetFields(o: string)
    requires IsoOffset(o).Some? && o != ""
    ensures |o| == 6 && (o[0] == '+' || o[0] == '-') && o[3] == ':'
    ensures AllDigits(o[1..3]) && AllDigits(o[4..])
    ensures NumberValue(o[1..3]) <= 23 && NumberValue(o[4..]) <= 59
    ensures IsoOffset(o) == Some(Some(SignedMinutes(o[0], NumberValue(o[1..3]), NumberValue(o[4..]))))
  {
  }

  lemma OffsetFields(o: string)
    requires |o| == 6 && o[3] == ':'
    ensures o == [o[0]] + o[1..3] + ":" + o[4..]
  {
  }

  lemma TwoDigitsSound(t: string, hi: nat)
    requires TwoDigits(t, hi).Some?
    ensures Pad(TwoDigits(t, hi).value, 2) == t
  {
    assert |t| == 2 && TwoDigits(t, hi).value == NumberValue(t);
    PadOfNumberValue(t);
  }

  /**
   * Soundness of the RFC 3339 reader: a timestamp it returns is the one the
   * text spells, rendered date and clock followed by a fraction and an offset
   * that name its microseconds and offset.
   */
  lemma IsoDateTimeSound(t: string, x: DateTime)
    requires IsoDateTime(t) == Some(x)
    ensures IsIsoText(t, x)
  {
    IsoParts(t, x);
    IsoHeadOfParts(t, x);
    var tail := t[19..];
    IsoFractionSound(tail);
    var rest := IsoFraction(tail).value.1;
    var f := tail[..|tail| - |rest|];
    IsoOffsetSound(rest);
    IsoAssemble(t, x, f, rest);
    IsIsoTextIntro(t, x, f, rest);
  }

  lemma IsoAssemble(t: string, x: DateTime, f: string, o: string)
    requires ValidDateTime(x) && |t| >= 19
    requires t[..19] == FormatDate(x.date) + "T" + FormatClock(x) && t[19..] == f + o
    ensures t == IsoText(x, f, o)
  {
    assert t == t[..19] + t[19..];
  }

  lemma IsIsoTextIntro(t: string, x: DateTime, f: string, o: string)
    requires ValidDateTime(x) && FractionText(f, x.micro) && OffsetText(o, x.offset)
    requires t == IsoText(x, f, o)
    ensures IsIsoText(t, x)
  {
  }

  /** The first nineteen characters of an accepted text are the rendered date and clock. */
  lemma IsoHeadOfParts(t: string, x: DateTime)
    requires ValidDateTime(x)
    requires |t| >= 19 && t[10] == 'T' && t[13] == ':' && t[16] == ':'
    requires IsoDate(t[..10]) == Some(x.date)
    requires TwoDigits(t[11..13], 23) == Some(x.hour)
    requires TwoDigits(t[14..16], 59) == Some(x.minute)
    requires TwoDigits(t[17..19], 59) == Some(x.second)
    ensures t[..19] == FormatDate(x.date) + "T" + FormatClock(x)
  {
    IsoDateIsCanonical(t[..10], x.date);
    ClockText(x, t[11..13], t[14..16], t[17..19]);
    HeadFields(t, FormatDate(x.date), FormatClock(x));
  }

  /** Three two-digit fields that read as the hour, minute and second render the clock. */
  lemma ClockText(x: DateTime, hh: string, mm: string, ss: string)
    requires ValidDateTime(x)
    requires TwoDigits(hh, 23) == Some(x.hour)
    requires TwoDigits(mm, 59) == Some(x.minute)
    requires TwoDigits(ss, 59) == Some(x.second)
    ensures hh + ":" + mm + ":" + ss == FormatClock(x)
  {
    TwoDigitsSound(hh, 23);
    TwoDigitsSound(mm, 59);
    TwoDigitsSound(ss, 59);
    ClockOfFields(x, hh, mm, ss);
  }

  lemma HeadFields(t: string, date: string, clock: string)
    requires |t| >= 19 && t[10] == 'T' && t[13] == ':' && t[16] == ':'
    requires t[..10] == date && t[11..13] + ":" + t[14..16] + ":" + t[17..19] == clock
    ensures t[..19] == date + "T" + clock
  {
    assert t[..19] == t[..10] + "T" + (t[11..13] + ":" + t[14..16] + ":" + t[17..19]);
  }

  /** Unpacking an accepted text into the readings of its fields. */
  lemma IsoParts(t: string, x: DateTime)
    requires IsoDateTime(t) == Some(x)
    ensures |t| >= 19 && t[10] == 'T' && t[13] == ':' && t[16] == ':'
    ensures IsoDate(t[..10]) == Some(x.date)
    ensures TwoDigits(t[11..13], 23) == Some(x.hour)
    ensures TwoDigits(t[14..16], 59) == Some(x.minute)
    ensures TwoDigits(t[17..19], 59) == Some(x.second)
    ensures IsoFraction(t[19..]).Some? && x.micro == IsoFraction(t[19..]).value.0
    ensures IsoOffset(IsoFraction(t[19..]).value.1) == Some(x.offset)
  {
  }

  lemma ClockOfFields(x: DateTime, hh: string, mm: string, ss: string)
    requires ValidDateTime(x)
    requires Pad(x.hour, 2) == hh && Pad(x.minute, 2) == mm && Pad(x.second, 2) == ss
    ensures FormatClock(x) == hh + ":" + mm + ":" + ss
  {
  }

  /**
   * Completeness of the RFC 3339 reader: every text that spells `x`, with any
   * accepted fraction and offset, is read as `x`.
   */
  lemma IsoDateTimeComplete(t: string, x: DateTime)
    requires IsIsoText(t, x)
    ensures IsoDateTime(t) == Some(x)
  {
    var f, o := IsIsoTextElim(t, x);
    OffsetTextReads(o, x.offset);
    FractionTextReads(f, x.micro, o);
    IsoDateReadsFormatDate(x.date);
    var hh, mi, ss := ClockParts(x);
    IsoTextFields(FormatDate(x.date), FormatClock(x), hh, mi, ss, f, o);
    IsoDateTimeOfFields(FormatDate(x.date), hh, mi, ss, f + o, x);
  }

  /** The RFC 3339 reader gives `x` exactly for the texts that spell `x`. */
  lemma IsoDateTimeExactly(t: string, x: DateTime)
    ensures IsoDateTime(t) == Some(x) <==> IsIsoText(t, x)
  {
    if IsoDateTime(t) == Some(x) {
      IsoDateTimeSound(t, x);
    }
    if IsIsoText(t, x) {
      IsoDateTimeComplete(t, x);
    }
  }

  lemma IsIsoTextElim(t: string, x: DateTime) returns (f: string, o: string)
    requires IsIsoText(t, x)
    ensures ValidDateTime(x) && FractionText(f, x.micro) && OffsetText(o, x.offset)
    ensures t == IsoText(x, f, o)
  {
    f, o :| FractionText(f, x.micro) && OffsetText(o, x.offset) && t == IsoText(x, f, o);
  }

  /** An offset text starts with its sign and reads as the offset it names. */
  lemma OffsetTextReads(o: string, offset: Option<int>)
    requires OffsetText(o, offset)
    ensures o == "" || o[0] == '+' || o[0] == '-'
    ensures IsoOffset(o) == Some(offset)
  {
    if o != "" {
      var sign, h: nat, m: nat :| (sign == '+' || sign == '-') && h <= 23 && m <= 59
        && o == OffsetSpelling(sign, h, m) && offset == Some(SignedMinutes(sign, h, m));
      OffsetSpellingReads(sign, h, m);
    }
  }

  /** A fraction text before an offset text is read as its microseconds, leaving the offset. */
  lemma FractionTextReads(f: string, micro: nat, o: string)
    requires FractionText(f, micro)
    requires o == "" || o[0] == '+' || o[0] == '-'
    ensures IsoFraction(f + o) == Some((micro, o))
  {
    Pow10Values();
    if f == "" {
      assert f + o == o;
    } else if f == "." + Pad(micro, 6) {
      FractionDigitsRead(Pad(micro, 6), o);
    } else {
      var v := micro / 1000;
      assert f == "." + Pad(v, 3);
      assert v * 1000 == micro;
      FractionDigitsRead(Pad(v, 3), o);
    }
  }

  /** A point, digits, then an offset text or nothing: the digit run is exactly the digits. */
  lemma FractionDigitsRead(p: string, o: string)
    requires AllDigits(p) && (o == "" || o[0] == '+' || o[0] == '-')
    ensures var t := "." + p + o;
      && t[0] == '.' && DigitRun(t[1..]) == |p| && t[1..][..|p|] == p && t[1 + |p|..] == o
  {
    var t := "." + p + o;
    assert t[1..] == p + o;
    assert (p + o)[..|p|] == p;
    DigitRunAt(t[1..], |p|);
  }

  lemma IsoTextFields(ds: string, clock: string, hh: string, mi: string, ss: string, f: string, o: string)
    requires clock == hh + ":" + mi + ":" + ss
    ensures ds + "T" + clock + f + o == ds + "T" + hh + ":" + mi + ":" + ss + (f + o)
  {
  }

  // ---------------------------------------------------------------------------
  // Timestamps read by `strptime`: `%Y-%m-%d %H:%M:%S`
  // ---------------------------------------------------------------------------

  /** One or more whitespace characters, which the space of the format matches. */
  predicate Whitespace(w: string) {
    |w| >= 1 && forall i | 0 <= i < |w| :: IsSpace(w[i])
  }

  /** `t` spells the clock `k` as three colon-separated one- or two-digit fields. */
  ghost predicate IsClockText(t: string, k: Clock) {
    exists hh, mm, ss | FieldText(hh, k.hour) && FieldText(mm, k.minute) && FieldText(ss, k.second) ::
      t == hh + ":" + mm + ":" + ss
  }

  /**
   * `t` spells the naive timestamp `x` in the `strptime` format: a date text
   * as `%Y-%m-%d` reads it, whitespace, and a clock text.
   */
  ghost predicate IsPlainText(t: string, x: DateTime) {
    && ValidDateTime(x) && x.micro == 0 && x.offset == None
    && exists date, w, c | IsDateText(date, x.date) && Whitespace(w) && IsClockText(c, Clock(x.hour, x.minute, x.second)) ::
      t == date + w + c
  }

  /** Soundness of `strptime(t, "%H:%M:%S")`: a clock it returns is the one the text spells. */
  lemma StrptimeClockSound(t: string, k: Clock)
    requires StrptimeClock(t) == Some(k)
    ensures IsClockText(t, k)
  {
    StrptimeClockParts(t, k);
    var i := IndexOf(t, ':');
    var rest := t[i + 1..];
    var j := IndexOf(rest, ':');
    var hh, mm, ss := t[..i], rest[..j], rest[j + 1..];
    ClockFields(t, i, j);
    NumFieldSound(hh, 0, 23);
    NumFieldSound(mm, 0, 59);
    NumFieldSound(ss, 0, 59);
    IsClockTextIntro(t, k, hh, mm, ss);
  }

  /** A clock cut at its two colons is its fields joined again. */
  lemma ClockFields(t: string, i: nat, j: nat)
    requires i < |t| && t[i] == ':' && j < |t[i + 1..]| && t[i + 1..][j] == ':'
    ensures t == t[..i] + ":" + t[i + 1..][..j] + ":" + t[i + 1..][j + 1..]
  {
    var rest := t[i + 1..];
    assert rest == rest[..j] + ":" + rest[j + 1..];
    assert t == t[..i] + ":" + rest;
  }

  /** Unpacking a clock `strptime` accepts into the readings of its fields. */
  lemma StrptimeClockParts(t: string, k: Clock)
    requires StrptimeClock(t) == Some(k)
    ensures var i := IndexOf(t, ':');
      var rest := t[i + 1..];
      var j := IndexOf(rest, ':');
      && i < |t| && j < |rest|
      && NumField(t[..i], 0, 23) == Some(k.hour)
      && NumField(rest[..j], 0, 59) == Some(k.minute)
      && NumField(rest[j + 1..], 0, 59) == Some(k.second)
  {
  }

  lemma IsClockTextIntro(t: string, k: Clock, hh: string, mm: string, ss: string)
    requires FieldText(hh, k.hour) && FieldText(mm, k.minute) && FieldText(ss, k.second)
    requires t == hh + ":" + mm + ":" + ss
    ensures IsClockText(t, k)
  {
  }

  /** Soundness of `strptime(t, "%Y-%m-%d %H:%M:%S")`: a timestamp it returns is the one the text spells. */
  lemma StrptimeDateTimeSound(t: string, x: DateTime)
    requires StrptimeDateTime(t) == Some(x)
    ensures IsPlainText(t, x)
  {
    StrptimeDateTimeDate(t, x);
    StrptimeDateTimeClock(t, x);
    var y, m, dd, ws, c := PlainCut(t, x);
    PlainTextOfParts(t, x, y, m, dd, ws, c);
  }

  /** A timestamp whose parts read as the fields of `x`, cut into year, month, day, whitespace and clock. */
  lemma PlainCut(t: string, x: DateTime) returns (y: string, m: string, dd: string, ws: string, c: string)
    requires |t| >= 5 && AllDigits(t[..4]) && t[4] == '-' && NumberValue(t[..4]) == x.date.year
    requires var rest := t[5..];
      var j := IndexOf(rest, '-');
      && j < |rest|
      && NumField(rest[..j], 1, 12) == Some(x.date.month)
      && var dayAndTime := rest[j + 1..];
      DayField(dayAndTime[..DayTokenLength(dayAndTime)]) == Some(x.date.day)
    requires var rest := t[5..];
      var dayAndTime := rest[IndexOf(rest, '-') + 1..];
      var afterDay := dayAndTime[DayTokenLength(dayAndTime)..];
      var w := SpaceRun(afterDay);
      && w > 0
      && StrptimeClock(afterDay[w..]) == Some(Clock(x.hour, x.minute, x.second))
    ensures t == (y + "-" + m + "-" + dd) + ws + c
    ensures |y| == 4 && AllDigits(y) && NumberValue(y) == x.date.year
    ensures NumField(m, 1, 12) == Some(x.date.month) && DayField(dd) == Some(x.date.day)
    ensures Whitespace(ws) && StrptimeClock(c) == Some(Clock(x.hour, x.minute, x.second))
  {
    var rest := t[5..];
    var j := IndexOf(rest, '-');
    var dayAndTime := rest[j + 1..];
    var dl := DayTokenLength(dayAndTime);
    var afterDay := dayAndTime[dl..];
    var w := SpaceRun(afterDay);
    SpaceRunIsWhitespace(afterDay);
    PlainFields(t, j, dl, w);
    y, m, dd, ws, c := t[..4], rest[..j], dayAndTime[..dl], afterDay[..w], afterDay[w..];
  }

  /** A timestamp joined from parts that read as the fields of `x` spells `x`. */
  lemma PlainTextOfParts(t: string, x: DateTime, y: string, m: string, dd: string, ws: string, c: string)
    requires ValidDateTime(x) && x.micro == 0 && x.offset == None
    requires |y| == 4 && AllDigits(y) && NumberValue(y) == x.date.year
    requires NumField(m, 1, 12) == Some(x.date.month) && DayField(dd) == Some(x.date.day)
    requires Whitespace(ws) && StrptimeClock(c) == Some(Clock(x.hour, x.minute, x.second))
    requires t == (y + "-" + m + "-" + dd) + ws + c
    ensures IsPlainText(t, x)
  {
    PlainDateSound(y, m, dd, x.date);
    StrptimeClockSound(c, Clock(x.hour, x.minute, x.second));
    IsPlainTextIntro(t, x, y + "-" + m + "-" + dd, ws, c);
  }

  /** Unpacking a timestamp `strptime` accepts: its date fields. */
  lemma StrptimeDateTimeDate(t: string, x: DateTime)
    requires StrptimeDateTime(t) == Some(x)
    ensures x.micro == 0 && x.offset == None
    ensures |t| >= 5 && AllDigits(t[..4]) && t[4] == '-' && NumberValue(t[..4]) == x.date.year
    ensures var rest := t[5..];
      var j := IndexOf(rest, '-');
      && j < |rest|
      && NumField(rest[..j], 1, 12) == Some(x.date.month)
      && var dayAndTime := rest[j + 1..];
      DayField(dayAndTime[..DayTokenLength(dayAndTime)]) == Some(x.date.day)
  {
  }

  /** Unpacking a timestamp `strptime` accepts: its whitespace and clock. */
  lemma StrptimeDateTimeClock(t: string, x: DateTime)
    requires StrptimeDateTime(t) == Some(x)
    ensures |t| >= 5 && IndexOf(t[5..], '-') < |t[5..]|
    ensures var rest := t[5..];
      var dayAndTime := rest[IndexOf(rest, '-') + 1..];
      var afterDay := dayAndTime[DayTokenLength(dayAndTime)..];
      var w := SpaceRun(afterDay);
      && w > 0
      && StrptimeClock(afterDay[w..]) == Some(Clock(x.hour, x.minute, x.second))
  {
    var rest := t[5..];
    var dayAndTime := rest[IndexOf(rest, '-') + 1..];
    var afterDay := dayAndTime[DayTokenLength(dayAndTime)..];
    var w := SpaceRun(afterDay);
    assert w > 0 && StrptimeClock(afterDay[w..]).Some?;
  }

  /** The date part of a timestamp `strptime` accepts is a date text. */
  lemma PlainDateSound(y: string, m: string, dd: string, d: Date)
    requires ValidDate(d)
    requires |y| == 4 && AllDigits(y) && NumberValue(y) == d.year
    requires NumField(m, 1, 12) == Some(d.month) && DayField(dd) == Some(d.day)
    ensures IsDateText(y + "-" + m + "-" + dd, d)
  {
    NumFieldSound(m, 1, 12);
    DayFieldSound(dd);
    YearText(y, d.year, m, dd);
    IsDateTextIntro(y + "-" + m + "-" + dd, d, m, dd);
  }

  lemma SpaceRunIsWhitespace(s: string)
    requires SpaceRun(s) > 0
    ensures Whitespace(s[..SpaceRun(s)])
  {
  }

  /** Four digits reading as `year`, then a month and a day text, are its `DateText`. */
  lemma YearText(y: string, year: nat, m: string, dd: string)
    requires |y| == 4 && AllDigits(y) && NumberValue(y) == year
    ensures year < 10000 && y + "-" + m + "-" + dd == DateText(year, m, dd)
  {
    Pow10Values();
    PadOfNumberValue(y);
  }

  /** A timestamp cut at its dashes, its day token and its whitespace run is its parts joined again. */
  lemma PlainFields(t: string, j: nat, dl: nat, w: nat)
    requires |t| >= 5 && t[4] == '-' && j < |t[5..]| && t[5..][j] == '-'
    requires dl <= |t[5..][j + 1..]| && w <= |t[5..][j + 1..][dl..]|
    ensures var rest := t[5..];
      var dayAndTime := rest[j + 1..];
      var afterDay := dayAndTime[dl..];
      t == (t[..4] + "-" + rest[..j] + "-" + dayAndTime[..dl]) + afterDay[..w] + afterDay[w..]
  {
    var rest := t[5..];
    var dayAndTime := rest[j + 1..];
    var afterDay := dayAndTime[dl..];
    assert dayAndTime == dayAndTime[..dl] + afterDay[..w] + afterDay[w..];
    assert rest == rest[..j] + "-" + dayAndTime;
    assert t == t[..4] + "-" + rest;
  }

  lemma IsPlainTextIntro(t: string, x: DateTime, date: string, w: string, c: string)
    requires ValidDateTime(x) && x.micro == 0 && x.offset == None
    requires IsDateText(date, x.date) && Whitespace(w) && IsClockText(c, Clock(x.hour, x.minute, x.second))
    requires t == date + w + c
    ensures IsPlainText(t, x)
  {
  }

  /**
   * Completeness of `strptime(t, "%Y-%m-%d %H:%M:%S")`: every text that spells
   * `x`, with one- or two-digit fields and any run of whitespace, is read as `x`.
   */
  lemma StrptimeDateTimeComplete(t: string, x: DateTime)
    requires IsPlainText(t, x)
    ensures StrptimeDateTime(t) == Some(x)
  {
    var m, dd, w, c := IsPlainTextElim(t, x);
    PlainRestReads(m, dd, w, c, x);
    PlainYearThenRest(Pad(x.date.year, 4), m + "-" + (dd + (w + c)), x, |m|, |dd|, |w|);
  }

  /** `strptime(t, "%Y-%m-%d %H:%M:%S")` gives `x` exactly for the texts that spell `x`. */
  lemma StrptimeDateTimeExactly(t: string, x: DateTime)
    ensures StrptimeDateTime(t) == Some(x) <==> IsPlainText(t, x)
  {
    if StrptimeDateTime(t) == Some(x) {
      StrptimeDateTimeSound(t, x);
    }
    if IsPlainText(t, x) {
      StrptimeDateTimeComplete(t, x);
    }
  }

  lemma IsPlainTextElim(t: string, x: DateTime) returns (m: string, dd: string, w: string, c: string)
    requires IsPlainText(t, x)
    ensures ValidDateTime(x) && x.micro == 0 && x.offset == None
    ensures FieldText(m, x.date.month) && DayText(dd, x.date.day)
    ensures Whitespace(w) && IsClockText(c, Clock(x.hour, x.minute, x.second))
    ensures Pow10(4) == 10000 && t == Pad(x.date.year, 4) + "-" + (m + "-" + (dd + (w + c)))
  {
    var date;
    date, w, c := IsPlainTextCut(t, x);
    m, dd := IsDateTextElim(date, x.date);
    PlainShape(Pad(x.date.year, 4), m, dd, w, c);
  }

  lemma IsPlainTextCut(t: string, x: DateTime) returns (date: string, w: string, c: string)
    requires IsPlainText(t, x)
    ensures ValidDateTime(x) && x.micro == 0 && x.offset == None
    ensures IsDateText(date, x.date) && Whitespace(w) && IsClockText(c, Clock(x.hour, x.minute, x.second))
    ensures t == date + w + c
  {
    date, w, c :| IsDateText(date, x.date) && Whitespace(w)
      && IsClockText(c, Clock(x.hour, x.minute, x.second)) && t == date + w + c;
  }

  lemma IsDateTextElim(t: string, d: Date) returns (m: string, dd: string)
    requires IsDateText(t, d)
    ensures ValidDate(d) && FieldText(m, d.month) && DayText(dd, d.day)
    ensures Pow10(4) == 10000 && t == Pad(d.year, 4) + "-" + m + "-" + dd
  {
    Pow10Values();
    m, dd :| FieldText(m, d.month) && DayText(dd, d.day) && t == DateText(d.year, m, dd);
  }

  lemma PlainShape(y: string, m: string, dd: string, w: string, c: string)
    ensures (y + "-" + m + "-" + dd) + w + c == y + "-" + (m + "-" + (dd + (w + c)))
  {
  }

  /** The text after the year's dash reads as the month, the day, a whitespace run and the clock of `x`. */
  lemma PlainRestReads(m: string, dd: string, w: string, c: string, x: DateTime)
    requires ValidDateTime(x)
    requires FieldText(m, x.date.month) && DayText(dd, x.date.day)
    requires Whitespace(w) && IsClockText(c, Clock(x.hour, x.minute, x.second))
    ensures var rest := m + "-" + (dd + (w + c));
      var dayAndTime := rest[|m| + 1..];
      && IndexOf(rest, '-') == |m| < |rest| && rest[..|m|] == m && dayAndTime == dd + (w + c)
      && NumField(m, 1, 12) == Some(x.date.month)
      && DayTokenLength(dayAndTime) == |dd| && DayField(dayAndTime[..|dd|]) == Some(x.date.day)
      && SpaceRun(dayAndTime[|dd|..]) == |w| > 0
      && StrptimeClock(dayAndTime[|dd|..][|w|..]) == Some(Clock(x.hour, x.minute, x.second))
  {
    StrptimeClockComplete(c, Clock(x.hour, x.minute, x.second));
    SpaceRunOf(w, c);
    DayTokenOf(dd, x.date.day, w + c);
    DigitsThenSeparator(m, '-', dd + (w + c));
    NumFieldComplete(m, x.date.month, 1, 12);
    DayFieldComplete(dd, x.date.day);
  }

  /** `strptime` of a four-digit year, a dash, and a rest whose fields read as those of `x`. */
  lemma PlainYearThenRest(y: string, rest: string, x: DateTime, j: nat, dl: nat, wl: nat)
    requires ValidDateTime(x) && x.micro == 0 && x.offset == None
    requires |y| == 4 && AllDigits(y) && NumberValue(y) == x.date.year
    requires IndexOf(rest, '-') == j < |rest| && NumField(rest[..j], 1, 12) == Some(x.date.month)
    requires var dayAndTime := rest[j + 1..];
      && DayTokenLength(dayAndTime) == dl && DayField(dayAndTime[..dl]) == Some(x.date.day)
      && SpaceRun(dayAndTime[dl..]) == wl > 0
      && StrptimeClock(dayAndTime[dl..][wl..]) == Some(Clock(x.hour, x.minute, x.second))
    ensures StrptimeDateTime(y + "-" + rest) == Some(x)
  {
    var t := y + "-" + rest;
    assert t[..4] == y && t[4] == '-' && t[5..] == rest;
    PlainBodyReads(t, rest, x, j, dl, wl);
  }

  /** `strptime` of a text whose year, month, day, whitespace and clock read as those of `x`. */
  lemma PlainBodyReads(t: string, rest: string, x: DateTime, j: nat, dl: nat, wl: nat)
    requires ValidDateTime(x) && x.micro == 0 && x.offset == None
    requires |t| >= 5 && AllDigits(t[..4]) && t[4] == '-' && NumberValue(t[..4]) == x.date.year && t[5..] == rest
    requires IndexOf(rest, '-') == j < |rest| && NumField(rest[..j], 1, 12) == Some(x.date.month)
    requires var dayAndTime := rest[j + 1..];
      && DayTokenLength(dayAndTime) == dl && DayField(dayAndTime[..dl]) == Some(x.date.day)
      && SpaceRun(dayAndTime[dl..]) == wl > 0
      && StrptimeClock(dayAndTime[dl..][wl..]) == Some(Clock(x.hour, x.minute, x.second))
    ensures StrptimeDateTime(t) == Some(x)
  {
    assert MakeDate(NumberValue(t[..4]), x.date.month, x.date.day) == Some(x.date);
  }

  /** A day field before a whitespace character is the whole `%d` token. */
  lemma DayTokenOf(dd: string, v: nat, tail: string)
    requires DayText(dd, v) && |tail| > 0 && IsSpace(tail[0])
    ensures var s := dd + tail;
      && DayTokenLength(s) == |dd| && s[..|dd|] == dd && s[|dd|..] == tail
  {
    DayTextShape(dd, v);
    SpaceIsNoDigit(tail[0]);
    DayTokenOfShape(dd, tail);
  }

  /** A day text is one or two digits, or a space and one more character. */
  lemma DayTextShape(dd: string, v: nat)
    requires DayText(dd, v)
    ensures 1 <= |dd| <= 2
    ensures dd[0] == ' ' ==> |dd| == 2
    ensures dd[0] != ' ' ==> AllDigits(dd)
  {
    if FieldText(dd, v) {
      FieldTextDigits(dd, v);
    }
  }

  lemma DayTokenOfShape(dd: string, tail: string)
    requires 1 <= |dd| <= 2 && (dd[0] == ' ' ==> |dd| == 2) && (dd[0] != ' ' ==> AllDigits(dd))
    requires |tail| > 0 && !IsDigit(tail[0])
    ensures var s := dd + tail;
      && DayTokenLength(s) == |dd| && s[..|dd|] == dd && s[|dd|..] == tail
  {
    var s := dd + tail;
    assert s[..|dd|] == dd && s[|dd|..] == tail;
    if dd[0] == ' ' {
      assert s[0] == ' ';
    } else {
      assert s[|dd|] == tail[0] && IsDigit(s[0]);
      DigitRunAt(s, |dd|);
    }
  }

  lemma FieldTextDigits(a: string, v: nat)
    requires FieldText(a, v)
    ensures 1 <= |a| <= 2 && AllDigits(a)
  {
  }

  lemma SpaceIsNoDigit(c: char)
    requires IsSpace(c)
    ensures !IsDigit(c)
  {
  }

  /** A whitespace run before a digit is exactly what `SpaceRun` takes. */
  lemma SpaceRunOf(w: string, c: string)
    requires Whitespace(w) && |c| > 0 && IsDigit(c[0])
    ensures var s := w + c;
      && SpaceRun(s) == |w| && s[..|w|] == w && s[|w|..] == c && IsSpace(s[0])
  {
    var s := w + c;
    assert s[..|w|] == w && s[|w|..] == c;
    SpaceRunAt(s, |w|);
  }

  /** Completeness of `strptime(t, "%H:%M:%S")` for a clock within range. */
  lemma StrptimeClockComplete(t: string, k: Clock)
    requires IsClockText(t, k) && k.hour <= 23 && k.minute <= 59 && k.second <= 59
    ensures StrptimeClock(t) == Some(k) && |t| > 0 && IsDigit(t[0])
  {
    var hh, mm, ss :| FieldText(hh, k.hour) && FieldText(mm, k.minute) && FieldText(ss, k.second)
      && t == hh + ":" + mm + ":" + ss;
    ClockCut(t, hh, mm, ss);
    NumFieldComplete(hh, k.hour, 0, 23);
    NumFieldComplete(mm, k.minute, 0, 59);
    NumFieldComplete(ss, k.second, 0, 59);
  }

  /** Where `strptime` cuts a clock text: at the colons after the hour and the minute. */
  lemma ClockCut(t: string, hh: string, mm: string, ss: string)
    requires AllDigits(hh) && AllDigits(mm) && |hh| > 0
    requires t == hh + ":" + mm + ":" + ss
    ensures IndexOf(t, ':') == |hh| < |t| && t[..|hh|] == hh && IsDigit(t[0])
    ensures var rest := t[|hh| + 1..];
      && IndexOf(rest, ':') == |mm| < |rest| && rest[..|mm|] == mm && rest[|mm| + 1..] == ss
  {
    assert t == hh + [':'] + (mm + ":" + ss);
    DigitsThenSeparator(hh, ':', mm + ":" + ss);
    DigitsThenSeparator(mm, ':', ss);
    assert IsDigit(hh[0]);
  }

  /**
   * Soundness of `parse_datetime`: a timestamp it returns is spelled by the
   * text, in RFC 3339 form (after every "Z" became "+00:00") when the text
   * holds a "T" and in the `strptime` form otherwise.
   */
  lemma ParseDateTimeSound(v: RawValue, x: DateTime)
    requires ParseDateTime(v) == Success(Some(x))
    ensures v.JStr? && v.s != ""
    ensures 'T' in v.s ==> IsIsoText(ReplaceAll(v.s, 'Z', "+00:00"), x)
    ensures 'T' !in v.s ==> IsPlainText(v.s, x)
  {
    if 'T' in v.s {
      IsoDateTimeSound(ReplaceAll(v.s, 'Z', "+00:00"), x);
    } else {
      StrptimeDateTimeSound(v.s, x);
    }
  }

  /**
   * `parse_datetime` of a string gives `x` exactly when the string spells `x`:
   * in RFC 3339 form after every "Z" became "+00:00" when it holds a "T", and
   * in the `strptime` form otherwise.
   */
  lemma ParseDateTimeExactly(s: string, x: DateTime)
    ensures ParseDateTime(JStr(s)) == Success(Some(x)) <==>
      if 'T' in s then IsIsoText(ReplaceAll(s, 'Z', "+00:00"), x) else IsPlainText(s, x)
  {
    if 'T' in s {
      IsoDateTimeExactly(ReplaceAll(s, 'Z', "+00:00"), x);
    } else {
      StrptimeDateTimeExactly(s, x);
    }
  }

  // ---------------------------------------------------------------------------
  // Balances: `Decimal(text)` in plain notation
  // ---------------------------------------------------------------------------

  /** The optional sign in front of a decimal text. */
  predicate SignText(sign: string) {
    sign == "" || sign == "-" || sign == "+"
  }

  /** A sign, whole digits and, when `point`, a decimal point and fraction digits. */
  function DecimalSpelling(sign: string, w: string, point: bool, f: string): string {
    sign + w + (if point then "." + f else "")
  }

  /** A magnitude negated after a minus sign. */
  function Signed(sign: string, v: nat): int {
    if sign == "-" then -(v as int) else v
  }

  /** Whole and fraction digits that `DecimalSpelling` can join: at least one digit in all. */
  predicate DecimalDigits(w: string, point: bool, f: string) {
    AllDigits(w) && AllDigits(f) && (point || f == "") && |w| + |f| >= 1
  }

  /**
   * `s` spells `d` in plain decimal notation: an optional sign, digits, and an
   * optional point followed by digits, at least one digit in all. The
   * coefficient is the digits read as one number, negated after a minus sign,
   * and the scale is the number of digits after the point.
   */
  ghost predicate IsDecimalText(s: string, d: Decimal) {
    exists sign, w, point, f | SignText(sign) && DecimalDigits(w, point, f) ::
      && s == DecimalSpelling(sign, w, point, f)
      && AllDigits(w + f)
      && d == Decimal(Signed(sign, NumberValue(w + f)), |f|)
  }

  /** The unsigned reader accepts exactly digits with an optional point and fraction. */
  lemma UnsignedDecimalCut(body: string) returns (w: string, point: bool, f: string)
    requires UnsignedDecimal(body).Some?
    ensures DecimalDigits(w, point, f)
    ensures body == w + (if point then "." + f else "")
    ensures AllDigits(w + f) && UnsignedDecimal(body) == Some((NumberValue(w + f), |f|))
  {
    var i := DigitRun(body);
    w := body[..i];
    var rest := body[i..];
    assert body == w + rest;
    if rest == "" {
      point, f := false, "";
      assert w + f == w;
    } else {
      point, f := true, rest[1..];
      assert rest == "." + f;
    }
  }

  lemma UnsignedDecimalComplete(w: string, point: bool, f: string)
    requires DecimalDigits(w, point, f)
    ensures AllDigits(w + f)
    ensures UnsignedDecimal(w + (if point then "." + f else "")) == Some((NumberValue(w + f), |f|))
  {
    if |w| >= 1 {
      UnsignedDecimalParts(w, f, point);
    } else {
      assert w + (if point then "." + f else "") == "." + f;
      assert w + f == f;
      assert ("." + f)[1..] == f;
    }
  }

  /** Unpacking a text `Decimal()` accepts into its sign and its unsigned body. */
  lemma DecimalTextParts(s: string, d: Decimal) returns (sign: string, body: string)
    requires DecimalText(s) == Some(d)
    ensures SignText(sign) && s == sign + body
    ensures UnsignedDecimal(body).Some?
    ensures d == Decimal(Signed(sign, UnsignedDecimal(body).value.0), UnsignedDecimal(body).value.1)
  {
    if |s| > 0 && (s[0] == '-' || s[0] == '+') {
      sign, body := s[..1], s[1..];
      assert s == sign + body;
    } else {
      sign, body := "", s;
    }
  }

  /** A sign before an unsigned body that does not itself start with a sign. */
  lemma DecimalTextOfSign(sign: string, body: string, v: nat, scale: nat)
    requires SignText(sign) && UnsignedDecimal(body) == Some((v, scale))
    requires |body| > 0 && (body[0] == '.' || IsDigit(body[0]))
    ensures DecimalText(sign + body) == Some(Decimal(Signed(sign, v), scale))
  {
    if sign == "" {
      assert sign + body == body;
    } else {
      assert (sign + body)[1..] == body;
    }
  }

  lemma IsDecimalTextIntro(s: string, d: Decimal, sign: string, w: string, point: bool, f: string)
    requires SignText(sign) && DecimalDigits(w, point, f) && AllDigits(w + f)
    requires s == DecimalSpelling(sign, w, point, f)
    requires d == Decimal(Signed(sign, NumberValue(w + f)), |f|)
    ensures IsDecimalText(s, d)
  {
  }

  lemma IsDecimalTextElim(s: string, d: Decimal) returns (sign: string, w: string, point: bool, f: string)
    requires IsDecimalText(s, d)
    ensures SignText(sign) && DecimalDigits(w, point, f) && AllDigits(w + f)
    ensures s == DecimalSpelling(sign, w, point, f)
    ensures d == Decimal(Signed(sign, NumberValue(w + f)), |f|)
  {
    sign, w, point, f :| SignText(sign) && DecimalDigits(w, point, f)
      && s == DecimalSpelling(sign, w, point, f) && AllDigits(w + f)
      && d == Decimal(Signed(sign, NumberValue(w + f)), |f|);
  }

  lemma DecimalTextSound(s: string, d: Decimal)
    requires DecimalText(s) == Some(d)
    ensures IsDecimalText(s, d)
  {
    var sign, body := DecimalTextParts(s, d);
    DecimalSoundOfParts(s, d, sign, body);
  }

  lemma DecimalSoundOfParts(s: string, d: Decimal, sign: string, body: string)
    requires SignText(sign) && s == sign + body
    requires UnsignedDecimal(body).Some?
    requires d == Decimal(Signed(sign, UnsignedDecimal(body).value.0), UnsignedDecimal(body).value.1)
    ensures IsDecimalText(s, d)
  {
    var w, point, f := UnsignedDecimalCut(body);
    SpellingOfBody(s, sign, body, w, point, f);
    IsDecimalTextIntro(s, d, sign, w, point, f);
  }

  lemma SpellingOfBody(s: string, sign: string, body: string, w: string, point: bool, f: string)
    requires s == sign + body && body == w + (if point then "." + f else "")
    ensures s == DecimalSpelling(sign, w, point, f)
  {
  }

  lemma DecimalTextComplete(d: Decimal, sign: string, w: string, point: bool, f: string)
    requires SignText(sign) && DecimalDigits(w, point, f) && AllDigits(w + f)
    requires d == Decimal(Signed(sign, NumberValue(w + f)), |f|)
    ensures DecimalText(DecimalSpelling(sign, w, point, f)) == Some(d)
  {
    var body := UnsignedSpelling(sign, w, point, f);
    UnsignedDecimalComplete(w, point, f);
    DecimalTextOfSign(sign, body, NumberValue(w + f), |f|);
  }

  /** The text after the sign: it starts with a digit or the point, never with a sign. */
  lemma UnsignedSpelling(sign: string, w: string, point: bool, f: string) returns (body: string)
    requires DecimalDigits(w, point, f)
    ensures body == w + (if point then "." + f else "")
    ensures DecimalSpelling(sign, w, point, f) == sign + body
    ensures |body| > 0 && (body[0] == '.' || IsDigit(body[0]))
  {
    body := w + (if point then "." + f else "");
  }

  /** `Decimal(s)` in plain notation gives `d` exactly when `s` spells `d`. */
  lemma DecimalTextExactly(s: string, d: Decimal)
    ensures DecimalText(s) == Some(d) <==> IsDecimalText(s, d)
  {
    if DecimalText(s) == Some(d) {
      DecimalTextSound(s, d);
    }
    if IsDecimalText(s, d) {
      var sign, w, point, f := IsDecimalTextElim(s, d);
      DecimalTextComplete(d, sign, w, point, f);
    }
  }

  /**
   * The balance conversion keeps a text balance exactly when the text spells
   * a decimal in plain notation; any other text fails the whole record.
   */
  lemma ParseBalanceOfText(s: string, d: Decimal)
    ensures ParseBalance(JStr(s)) == Success(Some(d)) <==> IsDecimalText(s, d)
    ensures ParseBalance(JStr(s)).Failure? <==> forall e: Decimal :: !IsDecimalText(s, e)
  {
    DecimalTextExactly(s, d);
    if ParseBalance(JStr(s)).Failure? {
      forall e: Decimal ensures !IsDecimalText(s, e) {
        DecimalTextExactly(s, e);
      }
    } else {
      var e := ParseBalance(JStr(s)).value.value;
      DecimalTextExactly(s, e);
    }
  }
}
