/** The form encoder: `preparar_data` renders a date as `MM/YYYY` for the
    remote form, and `dados_para_requisição` renders the amount with two
    decimals and a comma as decimal separator. */
module FormEncoding {
  import opened Wrappers
  import opened Strings
  import opened Dates
  import opened ValueCleaning

  /** `f"{data.month:0>2d}/{data.year}"`: the month zero-padded to two
      digits, a slash, and the year in decimal. The day is not used. */
  function FormatMonthYear(d: Date): string
    requires ValidDate(d)
  {
    PadLeft(ToDecimal(d.month), '0', 2) + "/" + ToDecimal(d.year)
  }

  /** `preparar_data`: a missing date is replaced by today's date, which
      the caller passes in since the model has no clock. */
  function PrepareDate(d: Option<Date>, today: Date): string
    requires d.Some? ==> ValidDate(d.value)
    requires d.None? ==> ValidDate(today)
  {
    FormatMonthYear(if d.Some? then d.value else today)
  }

  /** `f"{valor:.2f}".replace(".", ",")` for an amount held as a whole
      number of cents: an optional minus sign, the whole part in decimal,
      a comma, and exactly two decimal digits. */
  function FormatAmount(cents: int): string
  {
    var n := if cents < 0 then -cents else cents;
    (if cents < 0 then "-" else "") + ToDecimal(n / 100) + "," + [DigitChar(n % 100 / 10), DigitChar(n % 10)]
  }

  /** The month field is two digits holding the month. */
  lemma MonthField(m: int)
    requires 1 <= m <= 12
    ensures var f := PadLeft(ToDecimal(m), '0', 2);
      |f| == 2 && AllDigits(f) && ValueOf(f) == m
  {
    var f := PadLeft(ToDecimal(m), '0', 2);
    if m < 10 {
      assert f == "0" + ToDecimal(m);
      LeadingZero(ToDecimal(m));
    } else {
      assert f == ToDecimal(m);
    }
  }

  /** The encoded date is the two-digit month, a slash, and the year
      written without leading zeros. */
  lemma MonthYearShape(d: Date)
    requires ValidDate(d)
    ensures var r := FormatMonthYear(d);
      && |r| >= 4 && r[2] == '/'
      && AllDigits(r[..2]) && ValueOf(r[..2]) == d.month
      && AllDigits(r[3..]) && ValueOf(r[3..]) == d.year && r[3] != '0'
  {
    MonthField(d.month);
    NoLeadingZero(d.year);
    SlashJoined(PadLeft(ToDecimal(d.month), '0', 2), ToDecimal(d.year));
  }

  /** Slicing a two-character field, a slash and a tail back apart. */
  lemma SlashJoined(f: string, y: string)
    requires |f| == 2 && |y| >= 1
    ensures var r := f + "/" + y;
      |r| >= 4 && r[2] == '/' && r[..2] == f && r[3..] == y && r[3] == y[0]
  {
    var r := f + "/" + y;
    assert r[..2] == f;
    assert r[3..] == y;
  }

  /** A positive number is written without a leading zero. */
  lemma NoLeadingZero(n: int)
    requires n >= 1
    ensures ToDecimal(n)[0] != '0'
  {
  }

  /** Only the month and the year of a date reach the form. */
  lemma PrepareDateIgnoresDay(d1: Date, d2: Date, today: Date)
    requires ValidDate(d1) && ValidDate(d2)
    requires d1.year == d2.year && d1.month == d2.month
    ensures PrepareDate(Some(d1), today) == PrepareDate(Some(d2), today)
  {
  }

  /** A missing date is encoded as today's date would be. */
  lemma PrepareDateDefault(today: Date)
    requires ValidDate(today)
    ensures PrepareDate(None, today) == PrepareDate(Some(today), today)
  {
  }

  /** Reduction leaves text made only of kept characters unchanged. */
  lemma {:induction false} ReduceKept(s: string)
    requires forall i :: 0 <= i < |s| ==> Kept(s[i])
    ensures Reduce(s) == s
  {
    if s != [] {
      ReduceKept(s[1..]);
      assert [s[0]] + s[1..] == s;
    }
  }

  /** The encoded date is its own reduction, holds exactly one slash and
      no comma or percent sign, and splits into the month and year fields. */
  lemma MonthYearParts(d: Date)
    requires ValidDate(d)
    ensures var s := FormatMonthYear(d);
      && Reduce(s) == s && '%' !in s && ',' !in s && '/' in s && Count(s, '/') == 1
      && Split(s, '/') == [PadLeft(ToDecimal(d.month), '0', 2), ToDecimal(d.year)]
  {
    var m := PadLeft(ToDecimal(d.month), '0', 2);
    var y := ToDecimal(d.year);
    MonthField(d.month);
    var s := FormatMonthYear(d);
    assert s == m + ['/'] + y;
    assert forall i :: 0 <= i < |s| ==> Kept(s[i]) && s[i] != '%' && s[i] != ',';
    ReduceKept(s);
    SplitAround(m, y, '/');
  }

  /** The encoded date, read back by `limpar_valor`, is the first day of
      the same month: the encoder and the cleaner agree on `MM/YYYY`. */
  lemma MonthYearRoundTrip(d: Date)
    requires ValidDate(d)
    ensures CleanValue(FormatMonthYear(d)) == Success(Calendar(Date(d.year, d.month, 1)))
  {
    MonthYearParts(d);
    MonthField(d.month);
    CleanValueDate(FormatMonthYear(d));
  }

  /** The whole part followed by the two decimals spells the cents. */
  lemma CentsDigits(n: nat)
    ensures var q := ToDecimal(n / 100);
      var dd := [DigitChar(n % 100 / 10), DigitChar(n % 10)];
      AllDigits(q + dd) && ValueOf(q + dd) == n
  {
    var q := ToDecimal(n / 100);
    var dd := [DigitChar(n % 100 / 10), DigitChar(n % 10)];
    ValueOfSnoc(q, dd[0]);
    ValueOfSnoc(q + [dd[0]], dd[1]);
    assert q + dd == q + [dd[0]] + [dd[1]];
  }

  /** The amount text is a minus sign exactly when the amount is
      negative, then what reduction keeps: the whole units in digits, a
      comma, and two digits, which together spell the absolute amount in
      cents. */
  lemma AmountReduced(cents: int)
    ensures var s := FormatAmount(cents);
      var b := Reduce(s);
      && s == (if cents < 0 then "-" else "") + b
      && |b| >= 4 && b == b[..|b| - 3] + [','] + b[|b| - 2..]
      && AllDigits(b[..|b| - 3]) && AllDigits(b[|b| - 2..])
      && ValueOf(b[..|b| - 3] + b[|b| - 2..]) == (if cents < 0 then -cents else cents)
  {
    var n := if cents < 0 then -cents else cents;
    var q, dd := ToDecimal(n / 100), [DigitChar(n % 100 / 10), DigitChar(n % 10)];
    SignedAmount(cents < 0, q, dd);
    CentsDigits(n);
    CommaSlices(q, dd);
  }

  /** The whole part and the decimals are read back by position. */
  lemma CommaSlices(q: string, dd: string)
    requires |q| >= 1 && |dd| == 2
    ensures var b := q + [','] + dd;
      |b| >= 4 && b[..|b| - 3] == q && b[|b| - 2..] == dd && b == q + [','] + dd
  {
    var b := q + [','] + dd;
    assert b[..|b| - 3] == q;
    assert b[|b| - 2..] == dd;
  }

  /** An optional sign before digits, a comma and digits: the sign is the
      only character reduction drops. */
  lemma SignedAmount(neg: bool, q: string, dd: string)
    requires AllDigits(q) && AllDigits(dd)
    ensures var sign := if neg then "-" else "";
      var body := q + [','] + dd;
      && sign + q + "," + dd == sign + body
      && Reduce(sign + body) == body
  {
    var sign := if neg then "-" else "";
    var body := q + [','] + dd;
    assert sign + q + "," + dd == sign + body;
    AmountBodyKept(q, dd);
    ReduceSigned(neg, body);
  }

  /** Text made of kept characters is what is left after reducing it with
      or without a leading minus sign. */
  lemma ReduceSigned(neg: bool, body: string)
    requires forall i :: 0 <= i < |body| ==> Kept(body[i])
    ensures Reduce((if neg then "-" else "") + body) == body
  {
    ReduceKept(body);
    if neg {
      ReduceDropsSign(body);
    } else {
      assert "" + body == body;
    }
  }

  /** Digits, a comma and digits are all kept characters. */
  lemma AmountBodyKept(q: string, dd: string)
    requires AllDigits(q) && AllDigits(dd)
    ensures var body := q + [','] + dd;
      forall i :: 0 <= i < |body| ==> Kept(body[i])
  {
    var body := q + [','] + dd;
    forall i | 0 <= i < |body|
      ensures Kept(body[i])
    {
      if i < |q| {
        assert body[i] == q[i];
      } else if i > |q| {
        assert body[i] == dd[i - |q| - 1];
      }
    }
  }

  /** A leading minus sign does not survive reduction. */
  lemma ReduceDropsSign(body: string)
    ensures Reduce("-" + body) == Reduce(body)
  {
    var s := "-" + body;
    assert s[1..] == body;
  }

  /** The encoded amount, read back by `limpar_valor`, is the same number
      of cents with two decimal places (the sign is not a kept character). */
  lemma AmountRoundTrip(cents: int)
    ensures CleanValue(FormatAmount(cents)) == Success(Number(if cents < 0 then -cents else cents, 2))
  {
    AmountReduced(cents);
    TwoPlacesReadBack(FormatAmount(cents), if cents < 0 then -cents else cents);
  }

  /** Text that reduces to digits, a comma and two digits spelling `n`
      cleans to `n` with two decimal places. */
  lemma TwoPlacesReadBack(s: string, n: nat)
    requires var b := Reduce(s);
      && |b| >= 4 && b == b[..|b| - 3] + [','] + b[|b| - 2..]
      && AllDigits(b[..|b| - 3]) && AllDigits(b[|b| - 2..])
      && ValueOf(b[..|b| - 3] + b[|b| - 2..]) == n
    ensures CleanValue(s) == Success(Number(n, 2))
  {
    var b := Reduce(s);
    var whole, frac := b[..|b| - 3], b[|b| - 2..];
    assert |frac| == 2 && whole + frac != "";
    CleanValueOfDecimal(s, whole, frac);
  }
}
