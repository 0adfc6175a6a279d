/**
 * Instants in the session store.
 *
 * The session code writes `expireTime` as text and reads it back with `new Date(text)`.
 * Here an instant is an integer count of milliseconds and its text is the decimal numeral
 * (with a leading '-' when negative). Text that is not such a numeral does not parse,
 * which is what an Invalid Date is in the source.
 */
module TimeText {
  import opened Wrappers

  predicate IsDigit(c: char) {
    '0' <= c <= '9'
  }

  predicate AllDigits(s: string) {
    forall i :: 0 <= i < |s| ==> IsDigit(s[i])
  }

  function DigitChar(d: nat): (c: char)
    requires d < 10
    ensures IsDigit(c) && c as int - '0' as int == d
  {
    ('0' as int + d) as char
  }

  /** Decimal numeral of `n`, most significant digit first. */
  function Numeral(n: nat): (s: string)
    ensures |s| > 0 && AllDigits(s)
    decreases n
  {
    if n < 10 then [DigitChar(n)] else Numeral(n / 10) + [DigitChar(n % 10)]
  }

  /** The number a string of digits denotes. */
  function NumeralValue(s: string): nat
    requires AllDigits(s)
  {
    if s == [] then 0
    else NumeralValue(s[..|s| - 1]) * 10 + (s[|s| - 1] as int - '0' as int)
  }

  /** The text stored for an instant (the model's `toISOString`). */
  function FormatTime(t: int): (s: string)
    ensures |s| > 0
    ensures t >= 0 ==> AllDigits(s)
    ensures t < 0 ==> s[0] == '-' && AllDigits(s[1..])
  {
    if t < 0 then "-" + Numeral(-t) else Numeral(t)
  }

  /** Reading stored text back as an instant (the model's `new Date(text)`); `None` is an Invalid Date. */
  function ParseTime(s: string): (r: Option<int>)
    ensures |s| > 0 && AllDigits(s) ==> r.Some? && r.value >= 0
    ensures s == [] || (!IsDigit(s[0]) && s[0] != '-') ==> r.None?
    ensures r.Some? && r.value < 0 ==> s[0] == '-'
  {
    if |s| > 1 && s[0] == '-' && AllDigits(s[1..]) then Some(-(NumeralValue(s[1..]) as int))
    else if |s| > 0 && AllDigits(s) then Some(NumeralValue(s))
    else None
  }

  lemma {:induction false} NumeralValueOfNumeral(n: nat)
    ensures NumeralValue(Numeral(n)) == n
    decreases n
  {
    var s := Numeral(n);
    if n < 10 {
      assert s[..0] == [];
    } else {
      assert s[..|s| - 1] == Numeral(n / 10);
      NumeralValueOfNumeral(n / 10);
    }
  }

  /** Every instant written to the store reads back as the same instant. */
  lemma FormatParseRoundTrip(t: int)
    ensures ParseTime(FormatTime(t)) == Some(t)
  {
    var s := FormatTime(t);
    if t < 0 {
      assert s[1..] == Numeral(-t);
      NumeralValueOfNumeral(-t);
    } else {
      NumeralValueOfNumeral(t);
    }
  }
}
