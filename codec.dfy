/** Text codecs used by every screen: the parts of Go's strconv and time
    packages that the expense tracker relies on, restated over Dafny strings.

    - Atoi / Itoa: strconv.Atoi and strconv.Itoa (base 10, optional sign,
      int64 range).
    - ParseMonthName: time.Parse("Jan", s), a case-insensitive three-letter
      month abbreviation.
    - ParseAmount / Format2: strconv.ParseFloat(s, 64) and
      strconv.FormatFloat(x, 'f', 2, 64), with amounts as exact reals.
    - ParseMonth / ParseDay: the per-field rules shared by the edit, insert
      and search screens; a year is any Atoi integer. */
module Codec {

  datatype Option<T> = None | Some(value: T)

  const Int64Min: int := -0x8000_0000_0000_0000
  const Int64Max: int := 0x7FFF_FFFF_FFFF_FFFF

  predicate IsDigit(c: char) { '0' <= c <= '9' }

  predicate AllDigits(s: string) { forall i :: 0 <= i < |s| ==> IsDigit(s[i]) }

  function DigitValue(c: char): nat
    requires IsDigit(c)
  {
    c as int - '0' as int
  }

  function DigitChar(d: nat): (c: char)
    requires d < 10
    ensures IsDigit(c) && DigitValue(c) == d
  {
    ('0' as int + d) as char
  }

  /** The value of a string of decimal digits, most significant first. */
  function DigitsValue(s: string): nat
    requires AllDigits(s)
    decreases |s|
  {
    if s == [] then 0 else DigitsValue(s[..|s| - 1]) * 10 + DigitValue(s[|s| - 1])
  }

  /** strconv.Atoi: an optional '+' or '-' followed by one or more decimal
      digits whose value fits in 64 bits; anything else is an error. */
  function Atoi(s: string): (r: Option<int>)
    ensures r.Some? ==> Int64Min <= r.value <= Int64Max
    ensures r.Some? ==> s != []
  {
    var signed := |s| > 0 && (s[0] == '-' || s[0] == '+');
    var body := if signed then s[1..] else s;
    if body == [] || !AllDigits(body) then None
    else
      var v: int := if signed && s[0] == '-' then -(DigitsValue(body) as int) else DigitsValue(body);
      if Int64Min <= v <= Int64Max then Some(v) else None
  }

  /** The shortest decimal spelling of a natural number. */
  function NatDigits(n: nat): (r: string)
    ensures r != [] && IsDigit(r[0])
    decreases n
  {
    if n < 10 then [DigitChar(n)] else NatDigits(n / 10) + [DigitChar(n % 10)]
  }

  lemma {:induction false} NatDigitsCorrect(n: nat)
    ensures NatDigits(n) != [] && AllDigits(NatDigits(n))
    ensures DigitsValue(NatDigits(n)) == n
    decreases n
  {
    if n >= 10 {
      NatDigitsCorrect(n / 10);
      var prefix := NatDigits(n / 10);
      var s := prefix + [DigitChar(n % 10)];
      assert s[..|s| - 1] == prefix;
    }
  }

  /** strconv.Itoa: a '-' exactly for a negative number, then the decimal
      digits of its magnitude. */
  function Itoa(n: int): (r: string)
    ensures r != [] && (r[0] == '-' <==> n < 0)
  {
    if n < 0 then "-" + NatDigits(-n) else NatDigits(n)
  }

  /** Itoa's text is never blank: a cell populated from a stored number is
      never mistaken for an empty cell. */
  lemma ItoaNonEmpty(n: int)
    ensures Itoa(n) != []
  {
    NatDigitsCorrect(if n < 0 then -n else n);
  }

  /** Parsing the text that Itoa prints gives the number back. */
  lemma {:induction false} AtoiItoa(n: int)
    requires Int64Min <= n <= Int64Max
    ensures Atoi(Itoa(n)) == Some(n)
  {
    var a: nat := if n < 0 then -n else n;
    NatDigitsCorrect(a);
    var s := Itoa(n);
    if n < 0 {
      assert s[1..] == NatDigits(a);
    } else {
      assert IsDigit(s[0]);
    }
  }

  // ---------------------------------------------------------------------
  // Month abbreviations: time.Parse("Jan", s)

  const MonthNames: seq<string> :=
    ["Jan", "Feb", "Mar", "Apr", "May", "Jun", "Jul", "Aug", "Sep", "Oct", "Nov", "Dec"]

  function LowerAscii(c: char): char
  {
    if 'A' <= c <= 'Z' then (c as int + 32) as char else c
  }

  /** Equality up to ASCII letter case, as Go's time package compares
      month names. */
  predicate EqualFold(a: string, b: string)
  {
    |a| == |b| && forall i :: 0 <= i < |a| ==> LowerAscii(a[i]) == LowerAscii(b[i])
  }

  function FindMonth(s: string, i: nat): (r: Option<int>)
    requires i <= 12
    ensures r.Some? ==> i < r.value <= 12 && EqualFold(s, MonthNames[r.value - 1])
    ensures r.None? ==> forall m :: i <= m < 12 ==> !EqualFold(s, MonthNames[m])
    decreases 12 - i
  {
    if i == 12 then None
    else if EqualFold(s, MonthNames[i]) then Some(i + 1)
    else FindMonth(s, i + 1)
  }

  /** The month number (1 for "Jan") of a three-letter abbreviation in any
      letter case; None for every other text, "January" and "1" included. */
  function ParseMonthName(s: string): (r: Option<int>)
    ensures r.Some? ==> 1 <= r.value <= 12 && EqualFold(s, MonthNames[r.value - 1])
    ensures r.None? <==> forall m :: 0 <= m < 12 ==> !EqualFold(s, MonthNames[m])
  {
    FindMonth(s, 0)
  }

  lemma MonthNamesStartWithLetters(m: nat)
    requires m < 12
    ensures |MonthNames[m]| == 3 && 'A' <= MonthNames[m][0] <= 'Z'
  {
  }

  /** A text that starts with a digit or a minus sign is no month
      abbreviation: every abbreviation starts with a letter. */
  lemma NumberIsNoMonthName(s: string)
    requires s != [] && (IsDigit(s[0]) || s[0] == '-')
    ensures ParseMonthName(s).None?
  {
    forall m | 0 <= m < 12
      ensures !EqualFold(s, MonthNames[m])
    {
      MonthNamesStartWithLetters(m);
      if |s| == |MonthNames[m]| {
        assert LowerAscii(s[0]) != LowerAscii(MonthNames[m][0]);
      }
    }
  }

  // ---------------------------------------------------------------------
  // Field rules shared by the screens

  /** Month: a "Jan"-style abbreviation, otherwise an integer in 1..12. */
  function ParseMonth(s: string): (r: Option<int>)
    ensures r.Some? ==> 1 <= r.value <= 12
    ensures ParseMonthName(s).Some? ==> r == ParseMonthName(s)
    ensures ParseMonthName(s).None? ==>
              (r.Some? <==> Atoi(s).Some? && 1 <= Atoi(s).value <= 12)
    ensures r.Some? && ParseMonthName(s).None? ==> r == Atoi(s)
  {
    match ParseMonthName(s)
    case Some(m) => Some(m)
    case None =>
      match Atoi(s)
      case Some(m) => if 1 <= m <= 12 then Some(m) else None
      case None => None
  }

  /** Day: an integer in 1..31, whatever the month. */
  function ParseDay(s: string): (r: Option<int>)
    ensures r.Some? <==> Atoi(s).Some? && 1 <= Atoi(s).value <= 31
    ensures r.Some? ==> r == Atoi(s)
  {
    match Atoi(s)
    case Some(d) => if 1 <= d <= 31 then Some(d) else None
    case None => None
  }

  // ---------------------------------------------------------------------
  // Amounts: strconv.ParseFloat and strconv.FormatFloat(x, 'f', 2, 64)

  function Pow10(n: nat): (r: nat)
    ensures r > 0
  {
    if n == 0 then 1 else 10 * Pow10(n - 1)
  }

  /** Index of the first '.', or |s| when there is none. */
  function DotIndex(s: string): (k: nat)
    ensures k <= |s|
    ensures k < |s| ==> s[k] == '.'
    ensures forall i :: 0 <= i < k ==> s[i] != '.'
  {
    if s == [] then 0
    else if s[0] == '.' then 0
    else 1 + DotIndex(s[1..])
  }

  /** Unsigned decimal notation: digits, optionally a point and more
      digits, with at least one digit in all. */
  function ParseDecimal(s: string): Option<real>
  {
    var k := DotIndex(s);
    var whole := s[..k];
    var frac := if k < |s| then s[k + 1..] else "";
    if AllDigits(whole) && AllDigits(frac) && |whole| + |frac| > 0 then
      Some(DecimalValue(whole, frac))
    else None
  }

  /** The value of whole.frac written in decimal digits. */
  function DecimalValue(whole: string, frac: string): real
    requires AllDigits(whole) && AllDigits(frac)
  {
    DigitsValue(whole) as real + DigitsValue(frac) as real / Pow10(|frac|) as real
  }

  /** strconv.ParseFloat(s, 64) in plain decimal notation with an optional
      sign; blank text is an error. */
  function ParseAmount(s: string): (r: Option<real>)
    ensures r.Some? ==> s != []
  {
    if s == [] then None
    else if s[0] == '-' || s[0] == '+' then
      match ParseDecimal(s[1..])
      case Some(v) => Some(if s[0] == '-' then -v else v)
      case None => None
    else ParseDecimal(s)
  }

  /** The whole number nearest to a non-negative y; an exact half goes to
      the even neighbour. */
  function RoundHalfEven(y: real): (r: int)
    requires y >= 0.0
    ensures -0.5 <= r as real - y <= 0.5
    ensures (r as real - y == 0.5 || r as real - y == -0.5) ==> r % 2 == 0
  {
    var f := y.Floor;
    var d := y - f as real;
    if d > 0.5 || (d == 0.5 && f % 2 == 1) then f + 1 else f
  }

  /** The amount as a number of cents, rounded the way FormatFloat(x, 'f',
      2, 64) rounds an exact decimal: to the nearest cent, and an exact
      half cent to the even one. The magnitude is rounded and the sign put
      back, which for this rule is the same as rounding x itself. */
  function Cents(x: real): int
  {
    if x < 0.0 then -RoundHalfEven(-x * 100.0) else RoundHalfEven(x * 100.0)
  }

  /** Cents(x) is within half a cent of x, and even at an exact tie. */
  lemma CentsNearest(x: real)
    ensures -0.5 <= Cents(x) as real - x * 100.0 <= 0.5
    ensures (Cents(x) as real - x * 100.0 == 0.5 || Cents(x) as real - x * 100.0 == -0.5) ==> Cents(x) % 2 == 0
  {
  }

  /** The two clauses of CentsNearest pin the result down: any whole
      number of cents within half a cent of x, and even at a tie, is
      Cents(x). */
  lemma CentsIsNearestEven(x: real, c: int)
    requires -0.5 <= c as real - x * 100.0 <= 0.5
    requires (c as real - x * 100.0 == 0.5 || c as real - x * 100.0 == -0.5) ==> c % 2 == 0
    ensures c == Cents(x)
  {
    var k := Cents(x);
    CentsNearest(x);
    assert -1.0 <= (c - k) as real <= 1.0;
  }

  /** Exact half cents: 0.125 becomes 12 cents and -0.375 becomes -38,
      where rounding half up would give 13 and -37. */
  lemma CentsAtTies()
    ensures Cents(0.125) == 12 && Cents(-0.375) == -38 && Cents(0.375) == 38
  {
    CentsIsNearestEven(0.125, 12);
    CentsIsNearestEven(-0.375, -38);
    CentsIsNearestEven(0.375, 38);
  }

  /** FormatFloat(x, 'f', 2, 64): a '-' exactly when the rounded amount is
      negative, the whole part, '.', and two digits of cents. */
  function Format2(x: real): (r: string)
    ensures |r| >= 4 && (r[0] == '-' <==> Cents(x) < 0) && r[|r| - 3] == '.'
  {
    CentsText(Cents(x))
  }

  /** "-" when negative, the whole units, ".", then two digits of cents. */
  function CentsText(c: int): string
  {
    var a: nat := if c < 0 then -c else c;
    (if c < 0 then "-" else "") + UnsignedCentsText(a)
  }

  function UnsignedCentsText(a: nat): string
  {
    NatDigits(a / 100) + "." + [DigitChar(a % 100 / 10), DigitChar(a % 10)]
  }

  lemma DotIndexAfterDigits(d: string, rest: string)
    requires AllDigits(d)
    requires rest != [] && rest[0] == '.'
    ensures DotIndex(d + rest) == |d|
  {
    var s := d + rest;
    assert s[|d|] == '.';
    assert forall i :: 0 <= i < |d| ==> s[i] == d[i];
  }

  lemma TwoDigitsValue(x: nat, y: nat)
    requires x < 10 && y < 10
    ensures AllDigits([DigitChar(x), DigitChar(y)])
    ensures DigitsValue([DigitChar(x), DigitChar(y)]) == 10 * x + y
  {
    var s := [DigitChar(x), DigitChar(y)];
    assert s[..1] == [DigitChar(x)];
    assert [DigitChar(x)][..0] == [];
    assert DigitsValue([DigitChar(x)]) == x;
    assert DigitsValue(s) == DigitsValue(s[..1]) * 10 + y;
  }

  /** The unsigned part of Format2(x) parses back to |cents| / 100. */
  lemma {:induction false} ParseDecimalOfCents(a: nat)
    ensures ParseDecimal(UnsignedCentsText(a)) == Some(a as real / 100.0)
  {
    var d := NatDigits(a / 100);
    var f := [DigitChar(a % 100 / 10), DigitChar(a % 10)];
    var s := d + "." + f;
    NatDigitsCorrect(a / 100);
    TwoDigitsValue(a % 100 / 10, a % 10);
    assert s == d + ("." + f);
    DotIndexAfterDigits(d, "." + f);
    assert s[..|d|] == d;
    assert s[|d| + 1..] == f;
    ParseTwoDecimals(s, d, f);
    CentsSplit(a);
  }

  /** Whole digits, a point and two digits of cents parse to the whole
      part plus the cents over 100. */
  lemma ParseTwoDecimals(s: string, d: string, f: string)
    requires AllDigits(d) && AllDigits(f) && |f| == 2
    requires DotIndex(s) == |d| < |s| && s[..|d|] == d && s[|d| + 1..] == f
    ensures ParseDecimal(s) == Some(DigitsValue(d) as real + DigitsValue(f) as real / 100.0)
  {
    ParseDecimalAtDot(s, d, f);
    assert Pow10(|f|) == 100 by {
      assert Pow10(2) == 100;
    }
    OverHundred(DigitsValue(d) as real, DigitsValue(f) as real, Pow10(|f|));
  }

  /** Digits, the first point, and digits: the whole part plus the fraction. */
  lemma ParseDecimalAtDot(s: string, d: string, f: string)
    requires AllDigits(d) && AllDigits(f) && f != []
    requires DotIndex(s) == |d| < |s| && s[..|d|] == d && s[|d| + 1..] == f
    ensures ParseDecimal(s) == Some(DecimalValue(d, f))
  {
    var k := DotIndex(s);
    var frac := if k < |s| then s[k + 1..] else "";
    assert s[..k] == d && frac == f;
  }

  lemma OverHundred(w: real, x: real, p: int)
    requires p == 100
    ensures w + x / p as real == w + x / 100.0
  {
  }

  lemma DigitsOfCents(m: int)
    requires 0 <= m < 100
    ensures 10 * (m / 10) + m % 10 == m
  {
  }

  lemma SplitReal(q: int, m: int)
    ensures q as real + m as real / 100.0 == (q * 100 + m) as real / 100.0
  {
  }

  /** A whole number of cents is its whole units plus its cents. */
  lemma CentsSplit(a: nat)
    ensures (a / 100) as real + (10 * (a % 100 / 10) + a % 10) as real / 100.0 == a as real / 100.0
  {
    var q := a / 100;
    var m := a % 100;
    DigitsOfCents(m);
    assert a % 10 == m % 10;
    assert a == q * 100 + m;
    SplitReal(q, m);
  }

  lemma {:induction false} CentsTextRoundTrip(c: int)
    ensures ParseAmount(CentsText(c)) == Some(c as real / 100.0)
  {
    var a: nat := if c < 0 then -c else c;
    CentsTextSign(c);
    UnsignedCentsParse(a);
    SignedCentsParse(CentsText(c), UnsignedCentsText(a), c, a as real / 100.0);
  }

  /** The unsigned text of a number of cents starts with a digit and
      parses to the cents over 100. */
  lemma UnsignedCentsParse(a: nat)
    ensures UnsignedCentsText(a) != [] && IsDigit(UnsignedCentsText(a)[0])
    ensures ParseDecimal(UnsignedCentsText(a)) == Some(a as real / 100.0)
  {
    ParseDecimalOfCents(a);
    assert UnsignedCentsText(a)[0] == NatDigits(a / 100)[0];
  }

  /** CentsText(c) is the unsigned text of |c|, after a '-' when c < 0. */
  lemma CentsTextSign(c: int)
    ensures var a := if c < 0 then -c else c;
      (c < 0 ==> CentsText(c) == "-" + UnsignedCentsText(a) && -(a as real / 100.0) == c as real / 100.0) &&
      (c >= 0 ==> CentsText(c) == UnsignedCentsText(a) && a as real / 100.0 == c as real / 100.0)
  {
  }

  /** Unsigned decimal text that starts with a digit parses as itself, and
      with a '-' in front as its negation. */
  lemma SignedCentsParse(t: string, u: string, c: int, v: real)
    requires u != [] && IsDigit(u[0]) && ParseDecimal(u) == Some(v)
    requires c < 0 ==> t == "-" + u && -v == c as real / 100.0
    requires c >= 0 ==> t == u && v == c as real / 100.0
    ensures ParseAmount(t) == Some(c as real / 100.0)
  {
    if c < 0 {
      assert t[1..] == u;
    }
  }

  /** Formatting an amount to two decimals and parsing the text back gives
      the amount rounded to cents. */
  lemma Format2RoundTrip(x: real)
    ensures ParseAmount(Format2(x)) == Some(Cents(x) as real / 100.0)
  {
    CentsTextRoundTrip(Cents(x));
  }

  /** An amount that is already a whole number of cents survives the
      format/parse round trip exactly. */
  lemma CentsOfCents(c: int)
    ensures Cents(c as real / 100.0) == c
  {
    assert (c as real / 100.0) * 100.0 == c as real;
    CentsIsNearestEven(c as real / 100.0, c);
  }
}
