// The text print_number gives a number: "%d", "%.0f", "%e" or "%f". The forms are computed on
// exact reals, rounded to the nearest, halves to even.
module Rendering {
  import opened Bytes
  import opened Numbers

  // DBL_EPSILON is 2 to the -52.
  const EPSILON: real := 1.0 / 4503599627370496.0

  function Abs(r: real): (a: real)
    ensures a >= 0.0 && (a == r || a == -r)
  {
    if r < 0.0 then -r else r
  }

  // The tests of print_number, in their order.
  predicate PrintsInt(ival: int, r: real) {
    Abs(ival as real - r) <= EPSILON && r <= INT_MAX as real && r >= INT_MIN as real
  }

  predicate PrintsWhole(r: real) {
    Abs(r.Floor as real - r) <= EPSILON
  }

  predicate PrintsScientific(r: real) {
    Abs(r) < 0.000001 || Abs(r) > 1000000000.0
  }

  function RoundEven(x: real): (n: int)
    ensures -0.5 <= n as real - x <= 0.5
    ensures x == x.Floor as real ==> n as real == x
  {
    var n, rest := x.Floor, x - x.Floor as real;
    if rest < 0.5 || (rest == 0.5 && n % 2 == 0) then n else n + 1
  }

  // The last k decimal digits of n.
  function Digits(n: nat, k: nat): (w: bytes)
    ensures |w| == k
  {
    if k == 0 then [] else Digits(n / 10, k - 1) + [48 + n % 10]
  }

  lemma {:induction false} DigitsBehind(w: bytes, n: nat, k: nat)
    requires AllDigits(w) && n < TenTo(k)
    ensures AllDigits(w + Digits(n, k)) && NatOf(w + Digits(n, k)) == NatOf(w) * TenTo(k) + n
  {
    hide AllDigits, NatOf;
    if k == 0 {
      assert w + Digits(n, k) == w;
    } else {
      DigitsBehind(w, n / 10, k - 1);
      assert w + Digits(n, k) == (w + Digits(n / 10, k - 1)) + [48 + n % 10];
      NatOfSnoc(w + Digits(n / 10, k - 1), 48 + n % 10);
    }
  }

  // ---- "%f": six decimals ----

  function Millionths(r: real): (m: nat) {
    RoundEven(Abs(r) * 1000000.0)
  }

  function FixedTok(r: real): NumTok {
    var m := Millionths(r);
    NumTok(r < 0.0, m < 1000000, if m < 1000000 then [] else DecNat(m / 1000000), Digits(m % 1000000, 6), NoExp)
  }

  lemma {:induction false} SixDigits()
    ensures TenTo(6) == 1000000 && Pow10(-6) == 1.0 / 1000000.0 && Pow10(6) == 1000000.0
  {
    assert TenTo(3) == 1000 && TenTo(6) == 1000 * TenTo(3);
    assert Pow10(-3) == 0.001 && Pow10(3) == 1000.0;
    assert Pow10(-6) == Pow10(-3) / 10.0 / 10.0 / 10.0 && Pow10(6) == Pow10(3) * 10.0 * 10.0 * 10.0;
  }

  // The fixed form is a token of the standard, and its value is r to the nearest millionth.
  lemma {:induction false} FixedIsToken(r: real)
    ensures Rfc(FixedTok(r))
    ensures Value(FixedTok(r)) == (if r < 0.0 then -1.0 else 1.0) * (Millionths(r) as real / 1000000.0)
    ensures -0.0000005 <= Value(FixedTok(r)) - r <= 0.0000005
  {
    FixedIsRfc(r);
    hide Rfc, Wf, FixedTok, NatOf, Pow10, Millionths;
    assert Wf(FixedTok(r)) by { RfcIsWf(FixedTok(r)); }
    FixedFields(r);
    FixedValue(r, FixedTok(r));
    NearMillionth(r);
  }

  lemma FixedFields(r: real)
    ensures FixedTok(r).neg == (r < 0.0) && |FixedTok(r).frac| == 6 && FixedTok(r).exp == NoExp
  {
    hide Millionths;
  }

  lemma FixedValue(r: real, tok: NumTok)
    requires Wf(tok) && tok.neg == (r < 0.0) && |tok.frac| == 6 && tok.exp == NoExp
    requires NatOf(tok.whole + tok.frac) == Millionths(r)
    ensures Value(tok) == (if r < 0.0 then -1.0 else 1.0) * (Millionths(r) as real / 1000000.0)
  {
    hide Wf, NatOf, Millionths, Pow10;
    assert Pow10(-6) == 1.0 / 1000000.0 by { SixDigits(); }
  }

  lemma NearMillionth(r: real)
    ensures -0.0000005 <= (if r < 0.0 then -1.0 else 1.0) * (Millionths(r) as real / 1000000.0) - r <= 0.0000005
  {
    hide RoundEven;
    var m, x := Millionths(r) as real, Abs(r) * 1000000.0;
    assert -0.5 <= m - x <= 0.5;
    assert -0.0000005 <= m / 1000000.0 - Abs(r) <= 0.0000005;
  }

  lemma {:induction false} FixedIsRfc(r: real)
    ensures Rfc(FixedTok(r)) && NatOf(FixedTok(r).whole + FixedTok(r).frac) == Millionths(r)
  {
    hide NatOf, AllDigits, Digits, TenTo, DecNat, Millionths;
    var m, tok := Millionths(r), FixedTok(r);
    NoDigits();
    DecNatDigits(m / 1000000);
    assert TenTo(6) == 1000000 by { SixDigits(); }
    DigitsBehind(tok.whole, m % 1000000, 6);
    DigitsBehind([], m % 1000000, 6);
    assert [] + tok.frac == tok.frac;
  }

  // ---- "%e": one digit, six decimals and an exponent of two digits or more ----

  lemma {:induction false} PowUp(e: int)
    ensures Pow10(e + 1) == Pow10(e) * 10.0
  {
  }

  lemma {:induction false} PowAdd(x: int, y: int)
    ensures Pow10(x + y) == Pow10(x) * Pow10(y)
    decreases if y < 0 then -y else y
  {
    hide Pow10;
    if y == 0 {
      assert Pow10(0) == 1.0 by { PowZero(); }
    } else if y > 0 {
      PowAdd(x, y - 1);
      PowUp(y - 1);
      PowUp(x + (y - 1));
      Scale(Pow10(x), Pow10(y - 1), Pow10(y), Pow10(x + (y - 1)), Pow10(x + y));
    } else {
      PowAdd(x, y + 1);
      PowUp(y);
      PowUp(x + y);
      Unscale(Pow10(x), Pow10(y), Pow10(y + 1), Pow10(x + y), Pow10(x + (y + 1)));
    }
  }

  lemma {:induction false} PowZero()
    ensures Pow10(0) == 1.0
  {
  }

  lemma Scale(a: real, b: real, b10: real, c: real, c10: real)
    requires b10 == b * 10.0 && c10 == c * 10.0 && c == a * b
    ensures c10 == a * b10
  {
  }

  lemma Unscale(a: real, b: real, b10: real, c: real, c10: real)
    requires b10 == b * 10.0 && c10 == c * 10.0 && c10 == a * b10
    ensures c == a * b
  {
    assert c10 == (a * b) * 10.0;
  }

  lemma {:induction false} PowPositive(e: int)
    ensures Pow10(e) > 0.0
    decreases if e < 0 then -e else e
  {
    if e > 0 {
      PowPositive(e - 1);
    } else if e < 0 {
      PowPositive(e + 1);
    }
  }

  // The decimal exponent.
  function Magnitude(a: real): (e: int)
    requires a > 0.0
    decreases if a >= 10.0 then a.Floor else if a < 1.0 then (1.0 / a).Floor else 0
  {
    if a >= 10.0 then Magnitude(a / 10.0) + 1
    else if a < 1.0 then
      Shrinks(a);
      Magnitude(a * 10.0) - 1
    else 0
  }

  lemma Shrinks(a: real)
    requires 0.0 < a < 1.0
    ensures 1.0 / a > 1.0 && 1.0 / (a * 10.0) == 1.0 / a / 10.0
  {
  }

  lemma {:induction false} MagnitudeBounds(a: real)
    requires a > 0.0
    ensures Pow10(Magnitude(a)) <= a < Pow10(Magnitude(a) + 1)
    decreases if a >= 10.0 then a.Floor else if a < 1.0 then (1.0 / a).Floor else 0
  {
    var e := Magnitude(a);
    if a >= 10.0 {
      MagnitudeBounds(a / 10.0);
      PowUp(e - 1);
      PowUp(e);
    } else if a < 1.0 {
      Shrinks(a);
      MagnitudeBounds(a * 10.0);
      PowUp(e);
      PowUp(e + 1);
    } else {
      assert Pow10(0) == 1.0 && Pow10(1) == 10.0;
    }
  }

  // r with its point behind the seventh significant digit.
  function Shift(r: real): real
    requires r != 0.0
  {
    Abs(r) * Pow10(6 - Magnitude(Abs(r)))
  }

  lemma {:induction false} ShiftBounds(r: real)
    requires r != 0.0
    ensures 1000000.0 <= Shift(r) < 10000000.0
    ensures Shift(r) * Pow10(Magnitude(Abs(r)) - 6) == Abs(r)
  {
    hide Pow10, Magnitude;
    var a, e := Abs(r), Magnitude(Abs(r));
    MagnitudeBounds(a);
    PowPositive(6 - e);
    PowAdd(e, 6 - e);
    PowAdd(e + 1, 6 - e);
    PowAdd(6 - e, e - 6);
    PowZero();
    SixDigits();
    PowUp(6);
    Ordered(Pow10(e), a, Pow10(e + 1), Pow10(6 - e));
    assert a * Pow10(6 - e) < Pow10(7);
    Regroup(a, Pow10(6 - e), Pow10(e - 6));
  }

  lemma Ordered(x: real, y: real, z: real, k: real)
    requires x <= y < z && k > 0.0
    ensures x * k <= y * k < z * k
  {
  }

  lemma Regroup(a: real, b: real, c: real)
    ensures a * b * c == a * (b * c)
  {
  }

  function Significand(r: real): (m: nat)
    requires r != 0.0
    ensures 1000000 <= m <= 10000000
  {
    ShiftBounds(r);
    RoundEven(Shift(r))
  }

  // Rounding may carry into an eighth digit.
  predicate Carries(r: real)
    requires r != 0.0
  {
    Significand(r) == 10000000
  }

  function SciExp(r: real): int
    requires r != 0.0
  {
    Magnitude(Abs(r)) + if Carries(r) then 1 else 0
  }

  function SciDigits(r: real): (m: nat)
    requires r != 0.0
    ensures 1000000 <= m < 10000000
  {
    if Carries(r) then 1000000 else Significand(r)
  }

  function TwoDigits(n: nat): bytes {
    (if n < 10 then [48] else []) + DecNat(n)
  }

  lemma {:induction false} TwoDigitsRead(n: nat)
    ensures |TwoDigits(n)| >= 2 && AllDigits(TwoDigits(n)) && NatOf(TwoDigits(n)) == n
  {
    DecNatDigits(n);
    if n < 10 {
      NoDigits();
      NatOfSnoc([], 48);
      NatOfSnoc([48], 48 + n);
      assert [] + [48] == [48] && [48] + [48 + n] == TwoDigits(n);
    } else {
      assert [] + DecNat(n) == DecNat(n);
      assert DecNat(n) == DecNat(n / 10) + [48 + n % 10];
    }
  }

  function SciTok(r: real): NumTok
    requires r != 0.0
  {
    var m, e := SciDigits(r), SciExp(r);
    NumTok(r < 0.0, false, [48 + m / 1000000], Digits(m % 1000000, 6),
           Exp(101, if e < 0 then Minus else Plus, TwoDigits(if e < 0 then -e else e)))
  }

  lemma {:induction false} SciIsRfc(r: real)
    requires r != 0.0
    ensures Rfc(SciTok(r)) && NatOf(SciTok(r).whole + SciTok(r).frac) == SciDigits(r)
    ensures ExpValue(SciTok(r).exp) == SciExp(r)
  {
    hide SciDigits, SciExp, TwoDigits, NatOf, AllDigits, Digits, TenTo;
    var m, e, tok := SciDigits(r), SciExp(r), SciTok(r);
    TwoDigitsRead(if e < 0 then -e else e);
    assert ExpValue(tok.exp) == e;
    NoDigits();
    NatOfSnoc([], tok.whole[0]);
    assert [] + [tok.whole[0]] == tok.whole;
    assert TenTo(6) == 1000000 by { SixDigits(); }
    DigitsBehind(tok.whole, m % 1000000, 6);
    DigitsBehind([], m % 1000000, 6);
    assert [] + tok.frac == tok.frac;
  }

  // The scientific form is a token of the standard, and its value is r to seven significant
  // digits.
  lemma {:induction false} SciIsToken(r: real)
    requires r != 0.0
    ensures Rfc(SciTok(r))
    ensures var unit := Pow10(Magnitude(Abs(r)) - 6);
            && Value(SciTok(r)) == (if r < 0.0 then -1.0 else 1.0) * (Significand(r) as real * unit)
            && -unit / 2.0 <= Value(SciTok(r)) - r <= unit / 2.0
  {
    hide Pow10, Magnitude, Shift, Significand, NatOf, AllDigits, Abs, Value, Wf, SciTok;
    var e := Magnitude(Abs(r));
    SciIsRfc(r);
    ShiftBounds(r);
    SciValue(r);
    PowPositive(e - 6);
    NearShift(r);
    Near(Significand(r) as real, Shift(r), Pow10(e - 6), Abs(r));
    NearSigned(Significand(r) as real * Pow10(e - 6), r, Pow10(e - 6));
  }

  lemma NearShift(r: real)
    requires r != 0.0
    ensures -0.5 <= Significand(r) as real - Shift(r) <= 0.5
  {
    hide Shift;
  }

  lemma Near(m: real, x: real, unit: real, a: real)
    requires -0.5 <= m - x <= 0.5 && unit > 0.0 && a == x * unit
    ensures -unit / 2.0 <= m * unit - a <= unit / 2.0
  {
    var d := m - x;
    assert m * unit - a == d * unit;
    assert -0.5 * unit <= d * unit <= 0.5 * unit;
  }

  lemma NearSigned(v: real, r: real, unit: real)
    requires -unit / 2.0 <= v - Abs(r) <= unit / 2.0
    ensures -unit / 2.0 <= (if r < 0.0 then -1.0 else 1.0) * v - r <= unit / 2.0
  {
  }

  lemma {:induction false} SciValue(r: real)
    requires r != 0.0 && Wf(SciTok(r)) && NatOf(SciTok(r).whole + SciTok(r).frac) == SciDigits(r)
    requires ExpValue(SciTok(r).exp) == SciExp(r)
    ensures Value(SciTok(r))
      == (if r < 0.0 then -1.0 else 1.0) * (Significand(r) as real * Pow10(Magnitude(Abs(r)) - 6))
  {
    hide Pow10, Magnitude, Significand, NatOf, AllDigits, ExpValue, Wf, SciDigits, SciExp, Digits, TwoDigits;
    var m, e := SciDigits(r), SciExp(r);
    assert |SciTok(r).frac| == 6;
    assert Value(SciTok(r)) == (if r < 0.0 then -1.0 else 1.0) * (m as real) * Pow10(e - 6);
    Regroup(if r < 0.0 then -1.0 else 1.0, m as real, Pow10(e - 6));
    Carried(r);
  }

  lemma {:induction false} Carried(r: real)
    requires r != 0.0
    ensures SciDigits(r) as real * Pow10(SciExp(r) - 6) == Significand(r) as real * Pow10(Magnitude(Abs(r)) - 6)
  {
    hide Pow10, Magnitude, Significand;
    PowUp(Magnitude(Abs(r)) - 6);
  }

  // ---- The form print_number chooses ----

  // What print_number writes for an item whose two number fields hold ival and r.
  function FieldsTok(ival: int, r: real): NumTok {
    if PrintsInt(ival, r) then DecTok(ival)
    else if PrintsWhole(r) then DecTok(r.Floor)
    else if PrintsScientific(r) then SciTok(r)
    else FixedTok(r)
  }

  // The integer field holds the truncated number, as every function of the library leaves it.
  function RenderTok(r: real): NumTok {
    FieldsTok(IntOf(r), r)
  }

  function Render(r: real): bytes {
    Text(RenderTok(r))
  }

  // Whatever the number, its text is a number of the standard.
  lemma {:induction false} RenderIsRfc(r: real)
    ensures Rfc(RenderTok(r))
  {
    hide Rfc, Value, SciTok, FixedTok, DecTok, Pow10, Magnitude, Significand, Millionths;
    if PrintsInt(IntOf(r), r) {
      DecIsToken(IntOf(r));
    } else if PrintsWhole(r) {
      DecIsToken(r.Floor);
    } else if PrintsScientific(r) {
      SciIsToken(r);
    } else {
      FixedIsToken(r);
    }
  }

  // Within the accuracy of a double at one, 2 to the -52.
  predicate Near52(x: real, n: int) {
    -1.0 <= (x - n as real) * 4503599627370496.0 <= 1.0
  }

  // Which form the two fields get: an integer close to the number decides, then the size of the
  // number, from a millionth up to a thousand million for the form without exponent.
  lemma FormOf(ival: int, r: real)
    ensures var tok := FieldsTok(ival, r);
            if Near52(r, ival) && -2147483648.0 <= r <= 2147483647.0 then tok == DecTok(ival)
            else if Near52(r, r.Floor) then tok == DecTok(r.Floor)
            else if 0.000001 <= r <= 1000000000.0 || -1000000000.0 <= r <= -0.000001 then Fixed(tok)
            else Scientific(tok)
  {
    hide Millionths, SciDigits, SciExp, DecNat, Digits, DecTok;
    if !Near52(r, r.Floor) {
      FixedForm(r);
      ScientificForm(r);
    }
  }

  // "%f": six decimals and no exponent.
  predicate Fixed(tok: NumTok) {
    |tok.frac| == 6 && tok.exp.NoExp?
  }

  // "%e": one digit other than zero, six decimals, and an exponent with its sign and two digits
  // or more, of which more than two begin with no zero.
  predicate Scientific(tok: NumTok) {
    && |tok.whole| == 1 && 49 <= tok.whole[0] <= 57 && !tok.zero && |tok.frac| == 6
    && tok.exp.Exp? && tok.exp.mark == 101 && !tok.exp.sign.Unsigned?
    && |tok.exp.digits| >= 2 && (|tok.exp.digits| > 2 ==> tok.exp.digits[0] != 48)
  }

  lemma FixedForm(r: real)
    ensures Fixed(FixedTok(r))
  {
    hide Millionths;
  }

  lemma ScientificForm(r: real)
    requires r != 0.0
    ensures Scientific(SciTok(r))
  {
    hide SciExp, SciDigits, DecNat;
    var n := if SciExp(r) < 0 then -SciExp(r) else SciExp(r);
    DecNatDigits(n);
    OneDigit(n);
  }

  // A number halfway between two integers goes to the even one.
  lemma TiesToEven(n: int)
    ensures RoundEven(n as real + 0.5) == if n % 2 == 0 then n else n + 1
  {
    assert (n as real + 0.5).Floor == n;
  }

  // The integer field takes no part in the text: it leads to the branch the truncated number leads
  // to, or the number passes for whole.
  predicate Agree(ival: int, r: real) {
    (PrintsInt(ival, r) <==> PrintsInt(IntOf(r), r)) || PrintsWhole(r)
  }

  // An item whose integer field was set apart from the real one is written as its real number
  // would be exactly in these cases.
  lemma {:induction false} AgreeIff(ival: int, r: real)
    ensures Text(FieldsTok(ival, r)) == Render(r) <==> Agree(ival, r)
  {
    hide Rfc, Value, SciTok, FixedTok, DecTok, Text, Pow10, Magnitude, Significand, Millionths;
    if PrintsInt(ival, r) && PrintsInt(IntOf(r), r) {
      assert ival == IntOf(r);
    } else if PrintsInt(ival, r) {
      Apart(ival, r);
    } else if PrintsInt(IntOf(r), r) {
      Apart(IntOf(r), r);
    }
  }

  // The integer next to a number that does not pass for whole is not how it is written else.
  lemma {:induction false} Apart(n: int, r: real)
    requires PrintsInt(n, r)
    ensures PrintsWhole(r) ==> n == r.Floor
    ensures !PrintsWhole(r) && PrintsScientific(r) ==> Text(DecTok(n)) != Text(SciTok(r))
    ensures !PrintsWhole(r) && !PrintsScientific(r) ==> Text(DecTok(n)) != Text(FixedTok(r))
  {
    hide Rfc, Value, SciTok, FixedTok, DecTok, Text, Pow10, Magnitude, Significand, Millionths;
    DecIsToken(n);
    Fractions(n, r);
    if !PrintsWhole(r) && PrintsScientific(r) {
      SciIsToken(r);
      FractionTells(DecTok(n), SciTok(r));
    } else if !PrintsWhole(r) {
      FixedIsToken(r);
      FractionTells(DecTok(n), FixedTok(r));
    }
  }

  lemma Fractions(n: int, r: real)
    ensures |DecTok(n).frac| == 0 && |FixedTok(r).frac| == 6 && (r != 0.0 ==> |SciTok(r).frac| == 6)
  {
  }

  lemma {:induction false} FractionTells(tok: NumTok, other: NumTok)
    requires Rfc(tok) && Rfc(other) && |tok.frac| == 0 < |other.frac|
    ensures Text(tok) != Text(other)
  {
    hide Rfc, Text, Scan, Occurs;
    RfcIsWf(tok);
    RfcIsWf(other);
    var s := Text(tok);
    if s == Text(other) {
      OccursIsSlice(s, 0, s);
      ScanComplete(s, 0, tok);
      ScanComplete(s, 0, other);
    }
  }

  predicate IsInt(x: real) {
    x == x.Floor as real
  }

  // What can be written without loss: an integer, seven significant digits in the scientific
  // form, six decimals in the fixed one.
  predicate Exact(r: real) {
    if PrintsInt(IntOf(r), r) || PrintsWhole(r) then IsInt(r)
    else if PrintsScientific(r) then IsInt(Shift(r))
    else IsInt(r * 1000000.0)
  }

  // The text of a number denotes that number exactly when nothing had to be rounded away.
  lemma {:induction false} ExactIff(r: real)
    ensures Wf(RenderTok(r)) && (Value(RenderTok(r)) == r <==> Exact(r))
  {
    hide Wf, Rfc, Value, SciTok, FixedTok, DecTok, Pow10, Magnitude, Significand, Millionths, Shift;
    RenderIsRfc(r);
    if PrintsInt(IntOf(r), r) {
      DecIsToken(IntOf(r));
      Truncated(r);
    } else if PrintsWhole(r) {
      DecIsToken(r.Floor);
    } else if PrintsScientific(r) {
      SciExact(r);
    } else {
      FixedExact(r);
    }
    assert Wf(RenderTok(r)) by { RfcIsWf(RenderTok(r)); }
  }

  // The number the text denotes.
  function Written(r: real): (w: real)
    ensures w == r <==> Exact(r)
  {
    ExactIff(r);
    Value(RenderTok(r))
  }

  // The seventh decimal of a number is lost.
  lemma {:induction false} SeventhDecimal()
    ensures !Exact(0.1234567) && Written(0.1234567) == 0.123457
  {
    var r := 0.1234567;
    hide Value, FixedTok;
    FixedIsToken(r);
    assert Abs(r) * 1000000.0 == 123456.7 && (123456.7).Floor == 123456;
    assert Millionths(r) == 123457;
    assert IntOf(r) == 0 && r.Floor == 0;
    assert RenderTok(r) == FixedTok(r);
  }

  lemma {:induction false} RfcIsWf(tok: NumTok)
    requires Rfc(tok)
    ensures Wf(tok)
  {
  }

  lemma Truncated(r: real)
    requires INT_MIN as real <= r <= INT_MAX as real
    ensures IntOf(r) as real == r <==> IsInt(r)
  {
    if r < 0.0 && IsInt(r) {
      assert -r == (-r.Floor) as real;
    }
  }

  lemma {:induction false} FixedExact(r: real)
    ensures Rfc(FixedTok(r)) && (Value(FixedTok(r)) == r <==> IsInt(r * 1000000.0))
  {
    hide Rfc, Value, FixedTok;
    FixedIsToken(r);
    var x := Abs(r) * 1000000.0;
    assert IsInt(x) <==> Millionths(r) as real == x;
    NegatedIsInt(r * 1000000.0);
  }

  lemma NegatedIsInt(x: real)
    ensures IsInt(x) <==> IsInt(-x)
  {
    if IsInt(x) {
      assert -x == (-x.Floor) as real;
    }
    if IsInt(-x) {
      assert x == (-(-x).Floor) as real;
    }
  }

  lemma {:induction false} SciExact(r: real)
    requires r != 0.0
    ensures Rfc(SciTok(r)) && (Value(SciTok(r)) == r <==> IsInt(Shift(r)))
  {
    hide Rfc, Value, SciTok, Pow10, Magnitude, Shift, Abs, Significand;
    var unit := Pow10(Magnitude(Abs(r)) - 6);
    SciIsToken(r);
    ShiftBounds(r);
    PowPositive(Magnitude(Abs(r)) - 6);
    RfcIsWf(SciTok(r));
    SameValue(Value(SciTok(r)), r, Significand(r) as real, Shift(r), unit);
    Unrounded(r);
  }

  lemma Unrounded(r: real)
    requires r != 0.0
    ensures Significand(r) as real == Shift(r) <==> IsInt(Shift(r))
  {
    hide Shift;
  }

  lemma SameValue(value: real, r: real, m: real, x: real, unit: real)
    requires unit > 0.0 && x * unit == Abs(r) && value == (if r < 0.0 then -1.0 else 1.0) * (m * unit)
    ensures value == r <==> m == x
  {
    hide Abs;
    SameMultiple(m, x, unit);
    SameSigned(m * unit, r);
  }

  lemma SameSigned(v: real, r: real)
    ensures (if r < 0.0 then -1.0 else 1.0) * v == r <==> v == Abs(r)
  {
  }

  lemma SameMultiple(x: real, y: real, unit: real)
    requires unit > 0.0
    ensures x * unit == y * unit <==> x == y
  {
    assert x * unit - y * unit == (x - y) * unit;
  }

  // A 32-bit integer is written exactly, in the "%d" form.
  lemma {:induction false} Int32IsExact(r: real)
    requires Int32(r)
    ensures PrintsInt(IntOf(r), r)
    ensures Exact(r)
    ensures Render(r) == Dec(r.Floor)
  {
    IntOfInt32(r);
    IntRendered(r, r.Floor);
  }

  lemma IntRendered(r: real, n: int)
    requires RenderTok(r) == DecTok(n)
    ensures Render(r) == Dec(n)
  {
    hide DecTok, Dec, Text, RenderTok, Rfc, Value;
    DecIsToken(n);
  }

  // ---- The 64 bytes print_number allocates ----

  // Too long are only integers of 64 digits and more, and numbers whose exponent has 54; a minus
  // sign takes one of them.
  predicate Fits(r: real) {
    if PrintsInt(IntOf(r), r) then true
    else if PrintsWhole(r) then (if r.Floor < 0 then -r.Floor < TenTo(62) else r.Floor < TenTo(63))
    else if PrintsScientific(r) then
      var e := SciExp(r);
      (if e < 0 then -e else e) < TenTo(if r < 0.0 then 52 else 53)
    else true
  }

  lemma FitsIff(r: real)
    ensures Fits(r) <==> |Render(r)| < 64
  {
    hide SciTok, FixedTok, DecTok, Pow10, Magnitude, SciExp, SciDigits, Millionths, TenTo, Text, PrintsScientific,
         PrintsWhole;
    if PrintsInt(IntOf(r), r) {
      DecIsToken(IntOf(r));
      DecFits(IntOf(r));
    } else if PrintsWhole(r) {
      DecIsToken(r.Floor);
      DecNatLengthIff(r.Floor, 63);
      DecNatLengthIff(-r.Floor, 62);
    } else if PrintsScientific(r) {
      SciLength(r);
    } else {
      FixedLength(r);
    }
  }

  lemma {:induction false} DecNatLengthIff(n: int, k: nat)
    requires k > 0
    ensures n >= 0 ==> (|DecNat(n)| <= k <==> n < TenTo(k))
    decreases k
  {
    if n >= 10 && k > 1 {
      DecNatLengthIff(n / 10, k - 1);
    } else if n >= 0 && k > 1 {
      TenToGrows(k);
    }
  }

  lemma {:induction false} TenToGrows(k: nat)
    requires k > 0
    ensures TenTo(k) >= 10
  {
    if k > 1 {
      TenToGrows(k - 1);
    }
  }

  lemma {:induction false} SciLength(r: real)
    requires r != 0.0
    ensures var e, k := SciExp(r), if r < 0.0 then 52 else 53;
            |Text(SciTok(r))| < 64 <==> (if e < 0 then -e else e) < TenTo(k)
  {
    hide SciExp, SciDigits, TenTo, DecNat;
    var e := SciExp(r);
    var n := if e < 0 then -e else e;
    TextLength(SciTok(r));
    DecNatLengthIff(n, if r < 0.0 then 52 else 53);
    OneDigit(n);
  }

  lemma {:induction false} OneDigit(n: nat)
    ensures n < 10 ==> |DecNat(n)| == 1
  {
  }

  lemma {:induction false} FixedLength(r: real)
    requires !PrintsScientific(r)
    ensures |Text(FixedTok(r))| < 64
  {
    hide DecNat, NatOf, Text;
    var m := Millionths(r);
    assert m / 1000000 < 10000000000;
    TenDigits();
    DecNatLengthIff(m / 1000000, 10);
    TextLength(FixedTok(r));
  }

  lemma {:induction false} TenToIsPow10(k: nat)
    ensures TenTo(k) as real == Pow10(k)
  {
    if k > 0 {
      TenToIsPow10(k - 1);
    }
  }

  // The shortest text of the form 1eN whose number has no room, in any form.
  lemma {:induction false} LongNumber()
    ensures !Fits(Pow10(63)) && Pow10(63) == TenTo(63) as real && |Render(Pow10(63))| >= 64
  {
    hide TenTo, Pow10, Render, RenderTok;
    TenToIsPow10(63);
    var n, r := TenTo(63), Pow10(63);
    assert n as real == r && r.Floor == n;
    assert n > INT_MAX + 1 by { Grows(10, 63); assert TenTo(10) == 10000000000 by { TenDigits(); } }
    FitsIff(r);
  }

  lemma {:induction false} TenDigits()
    ensures TenTo(10) == 10000000000
  {
    assert TenTo(5) == 100000;
  }

  lemma {:induction false} Grows(j: nat, k: nat)
    requires j <= k
    ensures TenTo(j) <= TenTo(k)
  {
    if j < k {
      Grows(j, k - 1);
    }
  }
}
