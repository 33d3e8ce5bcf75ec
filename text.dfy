/** Character and string helpers: ASCII digits, zero-padded numerals, scanning. */
module Text {

  predicate IsDigit(c: char) { '0' <= c <= '9' }

  predicate AllDigits(s: string) { forall i | 0 <= i < |s| :: IsDigit(s[i]) }

  /**
   * The whitespace class `\s` of a Python regular expression over `str`: the
   * characters `str.isspace()` accepts, which are the ASCII controls 9 to 13
   * and 28 to 31, the space, and the Unicode separators.
   */
  predicate IsSpace(c: char) {
    var n := c as int;
    || 9 <= n <= 13 || 28 <= n <= 32
    || n == 0x85 || n == 0xA0 || n == 0x1680
    || 0x2000 <= n <= 0x200A
    || n == 0x2028 || n == 0x2029 || n == 0x202F || n == 0x205F || n == 0x3000
  }

  function DigitValue(c: char): (v: nat)
    requires IsDigit(c)
    ensures v < 10
  {
    (c as int) - ('0' as int)
  }

  function DigitChar(d: nat): (c: char)
    requires d < 10
    ensures IsDigit(c) && DigitValue(c) == d
  {
    ((('0' as int) + d) as char)
  }

  function Pow10(n: nat): (p: nat)
    ensures p >= 1
  {
    if n == 0 then 1 else 10 * Pow10(n - 1)
  }

  /** The value of a string of decimal digits, most significant first. */
  function NumberValue(s: string): (v: nat)
    requires AllDigits(s)
    ensures v < Pow10(|s|)
  {
    if |s| == 0 then 0 else NumberValue(s[..|s| - 1]) * 10 + DigitValue(s[|s| - 1])
  }

  lemma NumberValueSnoc(s: string, c: char)
    requires AllDigits(s) && IsDigit(c)
    ensures AllDigits(s + [c]) && NumberValue(s + [c]) == NumberValue(s) * 10 + DigitValue(c)
  {
    assert (s + [c])[..|s|] == s;
  }

  /** Reading the digits of `a + b` is reading `a`, shifting by `|b|` places, and adding `b`. */
  lemma {:induction false} NumberValueConcat(a: string, b: string)
    requires AllDigits(a) && AllDigits(b)
    ensures AllDigits(a + b)
    ensures NumberValue(a + b) == NumberValue(a) * Pow10(|b|) + NumberValue(b)
    decreases |b|
  {
    if |b| == 0 {
      assert a + b == a;
    } else {
      var b' := b[..|b| - 1];
      var c := b[|b| - 1];
      assert b == b' + [c];
      assert a + b == (a + b') + [c];
      NumberValueConcat(a, b');
      NumberValueSnoc(a + b', c);
      NumberValueSnoc(b', c);
      assert Pow10(|b|) == 10 * Pow10(|b'|);
      ShiftDistributes(NumberValue(a), Pow10(|b'|), NumberValue(b'), DigitValue(c));
    }
  }

  lemma ShiftDistributes(x: int, p: int, y: int, d: int)
    ensures (x * p + y) * 10 + d == x * (10 * p) + (y * 10 + d)
  {
  }

  /** `n` written with exactly `width` digits, zero-padded on the left. */
  function Pad(n: nat, width: nat): (s: string)
    requires n < Pow10(width)
    ensures |s| == width && AllDigits(s) && NumberValue(s) == n
  {
    if width == 0 then ""
    else
      var s := Pad(n / 10, width - 1) + [DigitChar(n % 10)];
      NumberValueSnoc(Pad(n / 10, width - 1), DigitChar(n % 10));
      s
  }

  /** A string of digits is the zero-padded numeral of its own value. */
  lemma {:induction false} PadOfNumberValue(s: string)
    requires AllDigits(s)
    ensures Pad(NumberValue(s), |s|) == s
    decreases |s|
  {
    if |s| > 0 {
      var init, c := s[..|s| - 1], s[|s| - 1];
      assert s == init + [c];
      assert AllDigits(init);
      PadOfNumberValue(init);
      PadOfNumberValueStep(init, c);
    }
  }

  /** The step of `PadOfNumberValue`: one more trailing digit. */
  lemma PadOfNumberValueStep(init: string, c: char)
    requires AllDigits(init) && IsDigit(c) && Pad(NumberValue(init), |init|) == init
    ensures AllDigits(init + [c]) && Pad(NumberValue(init + [c]), |init + [c]|) == init + [c]
  {
    NumberValueSnoc(init, c);
    var m, d := NumberValue(init), DigitValue(c);
    PadSnoc(NumberValue(init + [c]), |init + [c]|, m, d, |init|);
    DigitCharOfValue(c);
    assert Pad(m, |init|) + [DigitChar(d)] == init + [c];
  }

  /** Padding `m * 10 + d` to one more place appends the digit `d` to `m`'s padding. */
  lemma PadSnoc(n: nat, width: nat, m: nat, d: nat, w: nat)
    requires d < 10 && m < Pow10(w) && n == m * 10 + d && width == w + 1
    ensures n < Pow10(width) && Pad(n, width) == Pad(m, w) + [DigitChar(d)]
  {
    assert Pow10(w + 1) == 10 * Pow10(w);
    DivModTen(n, m, d);
    PadUnfold(n, width, m, d, w);
  }

  lemma DigitCharOfValue(c: char)
    requires IsDigit(c)
    ensures DigitChar(DigitValue(c)) == c
  {
  }

  lemma PadUnfold(n: nat, width: nat, q: nat, r: nat, w: nat)
    requires width > 0 && n < Pow10(width) && q == n / 10 && r == n % 10 && w == width - 1
    ensures q < Pow10(w) && r < 10 && Pad(n, width) == Pad(q, w) + [DigitChar(r)]
  {
  }

  lemma DivModTen(n: nat, a: nat, d: nat)
    requires d < 10 && n == a * 10 + d
    ensures n / 10 == a && n % 10 == d
  {
  }

  /** `n` in decimal with no leading zero (except for zero itself). */
  function Digits(n: nat): (s: string)
    ensures 1 <= |s| && AllDigits(s) && NumberValue(s) == n
  {
    if n < 10 then
      NumberValueSnoc("", DigitChar(n));
      assert "" + [DigitChar(n)] == [DigitChar(n)];
      [DigitChar(n)]
    else
      var s := Digits(n / 10) + [DigitChar(n % 10)];
      NumberValueSnoc(Digits(n / 10), DigitChar(n % 10));
      s
  }

  /** The position of the first `c` in `s`, or `|s|` when there is none. */
  function IndexOf(s: string, c: char): (i: nat)
    ensures i <= |s|
    ensures i < |s| ==> s[i] == c
    ensures forall j | 0 <= j < i :: s[j] != c
  {
    if |s| == 0 then 0 else if s[0] == c then 0 else 1 + IndexOf(s[1..], c)
  }

  /** The length of the longest prefix of `s` made of digits. */
  function DigitRun(s: string): (n: nat)
    ensures n <= |s| && AllDigits(s[..n])
    ensures n < |s| ==> !IsDigit(s[n])
  {
    if |s| == 0 || !IsDigit(s[0]) then 0
    else
      var n := 1 + DigitRun(s[1..]);
      assert s[..n] == [s[0]] + s[1..][..n - 1];
      n
  }

  /** The length of the longest prefix of `s` made of whitespace. */
  function SpaceRun(s: string): (n: nat)
    ensures n <= |s|
    ensures forall j | 0 <= j < n :: IsSpace(s[j])
    ensures n < |s| ==> !IsSpace(s[n])
  {
    if |s| == 0 || !IsSpace(s[0]) then 0 else 1 + SpaceRun(s[1..])
  }

  /** Every occurrence of `c` in `s` replaced by `t` (Python's `str.replace`). */
  function ReplaceAll(s: string, c: char, t: string): (r: string)
    ensures c !in s ==> r == s
    ensures c !in t ==> c !in r
  {
    if |s| == 0 then ""
    else (if s[0] == c then t else [s[0]]) + ReplaceAll(s[1..], c, t)
  }

  /** Replacing in a concatenation replaces in each part. */
  lemma {:induction false} ReplaceAllConcat(a: string, b: string, c: char, r: string)
    ensures ReplaceAll(a + b, c, r) == ReplaceAll(a, c, r) + ReplaceAll(b, c, r)
    decreases |a|
  {
    if |a| == 0 {
      assert a + b == b;
    } else {
      ReplaceAllConcat(a[1..], b, c, r);
      ReplaceAllConcatStep(a, b, c, r);
    }
  }

  /** The inductive step of `ReplaceAllConcat`: one more leading character. */
  lemma ReplaceAllConcatStep(a: string, b: string, c: char, r: string)
    requires |a| > 0
    requires ReplaceAll(a[1..] + b, c, r) == ReplaceAll(a[1..], c, r) + ReplaceAll(b, c, r)
    ensures ReplaceAll(a + b, c, r) == ReplaceAll(a, c, r) + ReplaceAll(b, c, r)
  {
    var head := if a[0] == c then r else [a[0]];
    var x, y := ReplaceAll(a[1..], c, r), ReplaceAll(b, c, r);
    assert (a + b)[0] == a[0] && (a + b)[1..] == a[1..] + b;
    assert ReplaceAll(a + b, c, r) == head + (x + y);
    assert ReplaceAll(a, c, r) == head + x;
    ConcatAssoc(head, x, y);
  }

  lemma ConcatAssoc(p: string, q: string, w: string)
    ensures p + (q + w) == (p + q) + w
  {
  }
}
