// Number tokens in exact arithmetic: what the scanner consumes, the value it computes, and the
// decimal rendering of 32-bit integers.
module Numbers {
  import opened Bytes

  predicate AllDigits(w: bytes) {
    forall k :: 0 <= k < |w| ==> IsDigit(w[k])
  }

  // The number a run of decimal digits denotes.
  function NatOf(w: bytes): nat
    requires AllDigits(w)
  {
    if |w| == 0 then 0 else NatOf(w[..|w| - 1]) * 10 + (w[|w| - 1] - 48)
  }

  lemma {:induction false} NoDigits()
    ensures AllDigits([]) && NatOf([]) == 0
  {
  }

  lemma {:induction false} NatOfSnoc(w: bytes, d: byte)
    requires AllDigits(w) && IsDigit(d)
    ensures AllDigits(w + [d]) && NatOf(w + [d]) == NatOf(w) * 10 + (d - 48)
  {
    assert (w + [d])[..|w|] == w;
  }

  function Pow10(e: int): real
    decreases if e < 0 then -e else e
  {
    if e == 0 then 1.0 else if e > 0 then Pow10(e - 1) * 10.0 else Pow10(e + 1) / 10.0
  }

  datatype Exponent =
    | NoExp
    | Exp(mark: byte, sign: ExpSign, digits: bytes)

  datatype ExpSign = Unsigned | Plus | Minus

  function ExpSignText(sign: ExpSign): bytes {
    match sign
    case Unsigned => []
    case Plus => [43]
    case Minus => [45]
  }

  // A number token; zero says whether a 0 stands before the other integer digits.
  datatype NumTok = NumTok(neg: bool, zero: bool, whole: bytes, frac: bytes, exp: Exponent)

  // The tokens the scanner consumes: one or more of sign, zero and digits, then optional parts.
  predicate Wf(tok: NumTok) {
    && (tok.neg || tok.zero || |tok.whole| > 0)
    && AllDigits(tok.whole) && (|tok.whole| > 0 ==> tok.whole[0] != 48)
    && AllDigits(tok.frac)
    && WfExp(tok.exp)
  }

  // The tokens of section 6 of RFC 8259.
  predicate Rfc(tok: NumTok) {
    Wf(tok) && tok.zero == (|tok.whole| == 0) && (tok.exp.Exp? ==> |tok.exp.digits| > 0)
  }

  function SignText(neg: bool): bytes {
    if neg then [45] else []
  }

  function ZeroText(zero: bool): bytes {
    if zero then [48] else []
  }

  function FracText(frac: bytes): bytes {
    if |frac| == 0 then [] else [46] + frac
  }

  function ExpText(exp: Exponent): bytes {
    if exp.NoExp? then [] else [exp.mark] + ExpSignText(exp.sign) + exp.digits
  }

  function Text(tok: NumTok): bytes {
    SignText(tok.neg) + ZeroText(tok.zero) + tok.whole + FracText(tok.frac) + ExpText(tok.exp)
  }

  // The parts of a token stand one behind the other from i on.
  predicate Laid(s: bytes, i: nat, tok: NumTok) {
    var p1 := i + |SignText(tok.neg)|;
    var p2 := p1 + |ZeroText(tok.zero)|;
    var p3 := p2 + |tok.whole|;
    var p4 := p3 + |FracText(tok.frac)|;
    && Occurs(s, i, SignText(tok.neg)) && Occurs(s, p1, ZeroText(tok.zero))
    && Occurs(s, p2, tok.whole) && Occurs(s, p3, FracText(tok.frac)) && Occurs(s, p4, ExpText(tok.exp))
  }

  lemma TextParts(s: bytes, i: nat, tok: NumTok)
    ensures Occurs(s, i, Text(tok)) <==> Laid(s, i, tok)
  {
    var sg, ze, fr, ex := SignText(tok.neg), ZeroText(tok.zero), FracText(tok.frac), ExpText(tok.exp);
    OccursConcat(s, i, sg, ze);
    OccursConcat(s, i, sg + ze, tok.whole);
    OccursConcat(s, i, sg + ze + tok.whole, fr);
    OccursConcat(s, i, sg + ze + tok.whole + fr, ex);
  }

  function ExpValue(exp: Exponent): int
    requires exp.Exp? ==> AllDigits(exp.digits)
  {
    if exp.NoExp? then 0 else if exp.sign.Minus? then -(NatOf(exp.digits) as int) else NatOf(exp.digits)
  }

  // sign * digits * 10^(exponent - fraction digits)
  function Value(tok: NumTok): real
    requires Wf(tok)
  {
    Signed(tok.neg, NatOf(tok.whole + tok.frac), ExpValue(tok.exp) - |tok.frac|)
  }

  function Signed(neg: bool, n: nat, e: int): real {
    (if neg then -1.0 else 1.0) * (n as real) * Pow10(e)
  }

  // ---- The scanner's positions ----

  function DigitsEnd(s: bytes, i: nat): (j: nat)
    requires i <= |s|
    ensures i <= j <= |s| && AllDigits(s[i..j]) && !IsDigit(At(s, j))
    decreases |s| - i
  {
    if IsDigit(At(s, i)) then
      var j := DigitsEnd(s, i + 1);
      assert s[i..j] == [s[i]] + s[i + 1..j];
      j
    else i
  }

  // The byte behind the one at j.
  function Behind(s: bytes, j: nat): byte
    requires j <= |s|
  {
    if j < |s| then At(s, j + 1) else 0
  }

  // An exponent mark with nothing behind it takes a sign.
  predicate OpenExp(exp: Exponent) {
    exp.Exp? && exp.sign.Unsigned? && |exp.digits| == 0
  }

  // The byte c, with d behind it, does not lengthen a part.

  predicate EndsWhole(whole: bytes, zero: bool, c: byte) {
    if |whole| > 0 then !IsDigit(c) else !IsDigit(c) || (zero && c == 48)
  }

  predicate EndsFrac(frac: bytes, c: byte, d: byte) {
    if |frac| > 0 then !IsDigit(c) else c != 46 || !IsDigit(d)
  }

  predicate EndsExp(exp: Exponent, c: byte) {
    if exp.NoExp? then c != 101 && c != 69
    else !IsDigit(c) && (OpenExp(exp) ==> c != 43 && c != 45)
  }

  // Nothing that starts with the bytes c and d lengthens the token.
  predicate Ends(tok: NumTok, c: byte, d: byte) {
    && EndsExp(tok.exp, c)
    && (tok.exp.NoExp? ==> EndsFrac(tok.frac, c, d))
    && (tok.exp.NoExp? && |tok.frac| == 0 ==> EndsWhole(tok.whole, tok.zero, c))
  }

  // The pieces parse_number consumes in turn, each from where the one before ended.

  function ScanSign(s: bytes, i: nat): (neg: bool)
    requires i <= |s|
    ensures Occurs(s, i, SignText(neg))
  {
    At(s, i) == 45
  }

  function ScanZero(s: bytes, i: nat): (zero: bool)
    requires i <= |s|
    ensures Occurs(s, i, ZeroText(zero))
  {
    At(s, i) == 48
  }

  function ScanWhole(s: bytes, i: nat): (w: bytes)
    requires i <= |s|
    ensures Occurs(s, i, w) && AllDigits(w) && (|w| > 0 ==> w[0] != 48)
    ensures if |w| > 0 then !IsDigit(At(s, i + |w|)) else !IsDigit(At(s, i)) || At(s, i) == 48
  {
    if IsDigit(At(s, i)) && At(s, i) != 48 then
      var j := DigitsEnd(s, i);
      OccursIsSlice(s, i, s[i..j]);
      s[i..j]
    else []
  }

  function ScanFrac(s: bytes, i: nat): (w: bytes)
    requires i <= |s|
    ensures AllDigits(w) && Occurs(s, i, FracText(w))
    ensures EndsFrac(w, At(s, i + |FracText(w)|), Behind(s, i + |FracText(w)|))
  {
    if At(s, i) == 46 && IsDigit(Behind(s, i)) then
      var j := DigitsEnd(s, i + 1);
      OccursIsSlice(s, i + 1, s[i + 1..j]);
      OccursConcat(s, i, [46], s[i + 1..j]);
      s[i + 1..j]
    else []
  }

  predicate WfExp(exp: Exponent) {
    exp.Exp? ==> (exp.mark == 101 || exp.mark == 69) && AllDigits(exp.digits)
  }

  function ScanExpSign(s: bytes, i: nat): (sign: ExpSign)
    requires i <= |s|
    ensures Occurs(s, i, ExpSignText(sign))
  {
    if At(s, i) == 43 then Plus else if At(s, i) == 45 then Minus else Unsigned
  }

  function ScanExp(s: bytes, i: nat): (exp: Exponent)
    requires i <= |s|
    ensures WfExp(exp) && Occurs(s, i, ExpText(exp)) && EndsExp(exp, At(s, i + |ExpText(exp)|))
  {
    if At(s, i) == 101 || At(s, i) == 69 then
      var sign := ScanExpSign(s, i + 1);
      var q := i + 1 + |ExpSignText(sign)|;
      var digits := s[q..DigitsEnd(s, q)];
      OccursIsSlice(s, q, digits);
      OccursConcat(s, i, [s[i]], ExpSignText(sign));
      OccursConcat(s, i, [s[i]] + ExpSignText(sign), digits);
      Exp(s[i], sign, digits)
    else NoExp
  }

  // The token parse_number consumes at i.
  function Scan(s: bytes, i: nat): NumTok
    requires i <= |s|
  {
    ScanUnsigned(s, i + |SignText(ScanSign(s, i))|, ScanSign(s, i))
  }

  function ScanUnsigned(s: bytes, p: nat, neg: bool): NumTok
    requires p <= |s|
  {
    ScanDigits(s, p + |ZeroText(ScanZero(s, p))|, neg, ScanZero(s, p))
  }

  function ScanDigits(s: bytes, p: nat, neg: bool, zero: bool): NumTok
    requires p <= |s|
  {
    ScanRest(s, p + |ScanWhole(s, p)|, neg, zero, ScanWhole(s, p))
  }

  function ScanRest(s: bytes, p: nat, neg: bool, zero: bool, whole: bytes): NumTok
    requires p <= |s|
  {
    NumTok(neg, zero, whole, ScanFrac(s, p), ScanExp(s, p + |FracText(ScanFrac(s, p))|))
  }

  // The scanner starts on a sign or a digit.
  predicate Starts(c: byte) {
    c == 45 || IsDigit(c)
  }

  // The scanner's stages, with the position each one starts from.
  predicate Stages(s: bytes, i: nat, tok: NumTok, p1: nat, p2: nat, p3: nat, p4: nat)
    requires i <= |s|
  {
    && tok.neg == ScanSign(s, i) && p1 == i + |SignText(tok.neg)|
    && tok.zero == ScanZero(s, p1) && p2 == p1 + |ZeroText(tok.zero)|
    && tok.whole == ScanWhole(s, p2) && p3 == p2 + |tok.whole|
    && tok.frac == ScanFrac(s, p3) && p4 == p3 + |FracText(tok.frac)|
    && tok.exp == ScanExp(s, p4)
  }

  lemma StagesAreScan(s: bytes, i: nat, tok: NumTok, p1: nat, p2: nat, p3: nat, p4: nat)
    requires i <= |s| && Stages(s, i, tok, p1, p2, p3, p4)
    ensures Scan(s, i) == tok
  {
    hide Scan, ScanSign, ScanZero, ScanWhole, ScanFrac, ScanExp, ScanRest, ScanDigits, ScanUnsigned, Occurs,
         AllDigits, SignText, ZeroText, FracText, ExpText;
    RestStage(s, p3, tok);
    DigitsStage(s, p2, tok);
    UnsignedStage(s, p1, tok);
    SignStage(s, i, tok);
  }

  lemma SignStage(s: bytes, i: nat, tok: NumTok)
    requires i <= |s| && tok.neg == ScanSign(s, i)
    requires ScanUnsigned(s, i + |SignText(tok.neg)|, tok.neg) == tok
    ensures Scan(s, i) == tok
  {
    hide ScanUnsigned;
  }

  lemma RestStage(s: bytes, p: nat, tok: NumTok)
    requires p <= |s| && tok.frac == ScanFrac(s, p)
    requires tok.exp == ScanExp(s, p + |FracText(tok.frac)|)
    ensures ScanRest(s, p, tok.neg, tok.zero, tok.whole) == tok
  {
    hide ScanFrac, ScanExp;
  }

  lemma DigitsStage(s: bytes, p: nat, tok: NumTok)
    requires p <= |s| && tok.whole == ScanWhole(s, p)
    requires ScanRest(s, p + |tok.whole|, tok.neg, tok.zero, tok.whole) == tok
    ensures ScanDigits(s, p, tok.neg, tok.zero) == tok
  {
    hide ScanRest;
  }

  lemma UnsignedStage(s: bytes, p: nat, tok: NumTok)
    requires p <= |s| && tok.zero == ScanZero(s, p)
    requires ScanDigits(s, p + |ZeroText(tok.zero)|, tok.neg, tok.zero) == tok
    ensures ScanUnsigned(s, p, tok.neg) == tok
  {
    hide ScanDigits, ScanWhole;
  }

  lemma ScanStages(s: bytes, i: nat, tok: NumTok) returns (p1: nat, p2: nat, p3: nat, p4: nat)
    requires i <= |s| && tok == Scan(s, i)
    ensures Stages(s, i, tok, p1, p2, p3, p4)
    ensures p1 == i + |SignText(tok.neg)| && p2 == p1 + |ZeroText(tok.zero)|
    ensures p3 == p2 + |tok.whole| && p4 == p3 + |FracText(tok.frac)|
  {
    hide Scan, ScanSign, ScanZero, ScanWhole, ScanFrac, ScanExp, Occurs, AllDigits, SignText, ZeroText, FracText,
         ExpText;
    p1 := i + |SignText(ScanSign(s, i))|;
    p2 := p1 + |ZeroText(ScanZero(s, p1))|;
    p3 := p2 + |ScanWhole(s, p2)|;
    p4 := p3 + |FracText(ScanFrac(s, p3))|;
    StagesAreScan(s, i, NumTok(ScanSign(s, i), ScanZero(s, p1), ScanWhole(s, p2), ScanFrac(s, p3), ScanExp(s, p4)),
                  p1, p2, p3, p4);
  }

  lemma StagesSound(s: bytes, i: nat, tok: NumTok, p1: nat, p2: nat, p3: nat, p4: nat)
    requires i <= |s| && Stages(s, i, tok, p1, p2, p3, p4)
    ensures Laid(s, i, tok) && (Starts(At(s, i)) ==> Wf(tok))
  {
    hide Laid, Wf, Stages;
    StagesLaid(s, i, tok, p1, p2, p3, p4);
    if Starts(At(s, i)) {
      StagesWf(s, i, tok, p1, p2, p3, p4);
    }
  }

  lemma StagesLaid(s: bytes, i: nat, tok: NumTok, p1: nat, p2: nat, p3: nat, p4: nat)
    requires i <= |s| && Stages(s, i, tok, p1, p2, p3, p4)
    ensures Laid(s, i, tok)
  {
    hide ScanFrac, ScanExp, ScanWhole, WfExp, AllDigits, FracText, ExpText;
  }

  lemma {:induction false} StagesWf(s: bytes, i: nat, tok: NumTok, p1: nat, p2: nat, p3: nat, p4: nat)
    requires i <= |s| && Stages(s, i, tok, p1, p2, p3, p4) && Starts(At(s, i))
    ensures Wf(tok)
  {
    hide ScanFrac, ScanExp, WfExp, FracText, ExpText, AllDigits, Occurs;
  }

  lemma StagesMaximal(s: bytes, i: nat, tok: NumTok, p1: nat, p2: nat, p3: nat, p4: nat, p5: nat)
    requires i <= |s| && Stages(s, i, tok, p1, p2, p3, p4) && p5 == p4 + |ExpText(tok.exp)|
    ensures p5 <= |s| && Ends(tok, At(s, p5), Behind(s, p5))
  {
    hide ScanFrac, ScanExp, ScanWhole;
  }

  // What the scanner consumes is one of the tokens, standing at i, and no longer one.
  lemma ScanSound(s: bytes, i: nat, tok: NumTok)
    requires i <= |s| && Starts(At(s, i)) && tok == Scan(s, i)
    ensures Wf(tok) && Occurs(s, i, Text(tok)) && |Text(tok)| > 0
    ensures Ends(tok, At(s, i + |Text(tok)|), Behind(s, i + |Text(tok)|))
  {
    hide Text, Laid, Ends, Wf, Scan, Stages, Starts;
    var p1, p2, p3, p4 := ScanStages(s, i, tok);
    assert Wf(tok) && Laid(s, i, tok) by { StagesSound(s, i, tok, p1, p2, p3, p4); }
    TextLength(tok);
    assert p4 + |ExpText(tok.exp)| == i + |Text(tok)|;
    StagesMaximal(s, i, tok, p1, p2, p3, p4, p4 + |ExpText(tok.exp)|);
    TextParts(s, i, tok);
    TextNonEmpty(tok);
  }

  lemma TextLength(tok: NumTok)
    ensures |Text(tok)| == |SignText(tok.neg)| + |ZeroText(tok.zero)| + |tok.whole|
                         + |FracText(tok.frac)| + |ExpText(tok.exp)|
  {
  }

  lemma TextNonEmpty(tok: NumTok)
    requires Wf(tok)
    ensures |Text(tok)| > 0 && Starts(Text(tok)[0])
  {
  }

  lemma {:induction false} DigitsRun(s: bytes, i: nat, w: bytes)
    requires Occurs(s, i, w) && AllDigits(w) && !IsDigit(At(s, i + |w|))
    ensures DigitsEnd(s, i) == i + |w| && s[i..i + |w|] == w
    decreases |w|
  {
    OccursIsSlice(s, i, w);
    if |w| > 0 {
      DigitsRun(s, i + 1, w[1..]);
    }
  }

  lemma ScanExpComplete(s: bytes, i: nat, exp: Exponent)
    requires WfExp(exp) && Occurs(s, i, ExpText(exp))
    requires EndsExp(exp, At(s, i + |ExpText(exp)|))
    ensures ScanExp(s, i) == exp
  {
    if exp.Exp? {
      var q := i + 1 + |ExpSignText(exp.sign)|;
      ExpParts(s, i, exp, q);
      assert i + |ExpText(exp)| == q + |exp.digits|;
      hide Occurs, AllDigits, ExpText, ExpSignText, DigitsEnd, ScanExp;
      DigitsRun(s, q, exp.digits);
      MarkedExp(s, i, exp, q);
    }
  }

  lemma MarkedExp(s: bytes, i: nat, exp: Exponent, q: nat)
    requires i < |s| && exp.Exp? && s[i] == exp.mark && (exp.mark == 101 || exp.mark == 69)
    requires ScanExpSign(s, i + 1) == exp.sign && q == i + 1 + |ExpSignText(exp.sign)| <= |s|
    requires DigitsEnd(s, q) == q + |exp.digits| && s[q..q + |exp.digits|] == exp.digits
    ensures ScanExp(s, i) == exp
  {
    hide Occurs, AllDigits, ScanExpSign, DigitsEnd;
  }

  lemma ExpParts(s: bytes, i: nat, exp: Exponent, q: nat)
    requires exp.Exp? && WfExp(exp) && Occurs(s, i, ExpText(exp))
    requires q == i + 1 + |ExpSignText(exp.sign)|
    requires OpenExp(exp) ==> At(s, q) != 43 && At(s, q) != 45
    ensures At(s, i) == exp.mark && ScanExpSign(s, i + 1) == exp.sign && Occurs(s, q, exp.digits)
  {
    var sign := ExpSignText(exp.sign);
    OccursConcat(s, i, [exp.mark] + sign, exp.digits);
    OccursConcat(s, i, [exp.mark], sign);
    HeadByte(s, i, [exp.mark]);
    HeadByte(s, i + 1, sign);
    HeadByte(s, q, exp.digits);
  }

  // The byte behind the fraction of a token: its exponent mark, or what follows the token.
  lemma FracComplete(s: bytes, i: nat, frac: bytes)
    requires AllDigits(frac) && Occurs(s, i, FracText(frac))
    requires EndsFrac(frac, At(s, i + |FracText(frac)|), Behind(s, i + |FracText(frac)|))
    ensures ScanFrac(s, i) == frac
  {
    if |frac| > 0 {
      OccursConcat(s, i, [46], frac);
      HeadByte(s, i + 1, frac);
      DigitsRun(s, i + 1, frac);
    }
  }

  // Every token is consumed whole, whatever follows that cannot lengthen it.
  lemma ScanComplete(s: bytes, i: nat, tok: NumTok)
    requires Wf(tok) && Occurs(s, i, Text(tok)) && Ends(tok, At(s, i + |Text(tok)|), Behind(s, i + |Text(tok)|))
    ensures Scan(s, i) == tok
  {
    TextParts(s, i, tok);
    var p1 := i + |SignText(tok.neg)|;
    var p2 := p1 + |ZeroText(tok.zero)|;
    var p3 := p2 + |tok.whole|;
    var p4 := p3 + |FracText(tok.frac)|;
    assert |Text(tok)| == p4 + |ExpText(tok.exp)| - i;
    LaidScan(s, i, tok, p1, p2, p3, p4);
    StagesAreScan(s, i, tok, p1, p2, p3, p4);
  }

  lemma LaidScan(s: bytes, i: nat, tok: NumTok, p1: nat, p2: nat, p3: nat, p4: nat)
    requires Wf(tok) && Laid(s, i, tok)
    requires p1 == i + |SignText(tok.neg)| && p2 == p1 + |ZeroText(tok.zero)|
    requires p3 == p2 + |tok.whole| && p4 == p3 + |FracText(tok.frac)|
    requires Ends(tok, At(s, p4 + |ExpText(tok.exp)|), Behind(s, p4 + |ExpText(tok.exp)|))
    ensures Stages(s, i, tok, p1, p2, p3, p4)
  {
    hide ScanExp, ScanFrac, ScanWhole;
    HeadBytes(s, i, tok, p1, p2, p3, p4);
    ScanExpComplete(s, p4, tok.exp);
    FracComplete(s, p3, tok.frac);
    WholeComplete(s, p2, tok.whole);
  }

  // The first byte of each part, or of what follows when the part is empty.
  lemma HeadBytes(s: bytes, i: nat, tok: NumTok, p1: nat, p2: nat, p3: nat, p4: nat)
    requires Wf(tok) && Laid(s, i, tok)
    requires p1 == i + |SignText(tok.neg)| && p2 == p1 + |ZeroText(tok.zero)|
    requires p3 == p2 + |tok.whole| && p4 == p3 + |FracText(tok.frac)|
    requires Ends(tok, At(s, p4 + |ExpText(tok.exp)|), Behind(s, p4 + |ExpText(tok.exp)|))
    ensures EndsFrac(tok.frac, At(s, p4), Behind(s, p4))
    ensures EndsWhole(tok.whole, tok.zero, At(s, p3))
    ensures ScanZero(s, p1) == tok.zero && ScanSign(s, i) == tok.neg
  {
    HeadByte(s, p4, ExpText(tok.exp));
    HeadByte(s, p3, FracText(tok.frac));
    HeadByte(s, p2, tok.whole);
    HeadByte(s, p1, ZeroText(tok.zero));
    HeadByte(s, i, SignText(tok.neg));
  }

  lemma WholeComplete(s: bytes, i: nat, w: bytes)
    requires Occurs(s, i, w) && AllDigits(w) && (|w| > 0 ==> w[0] != 48)
    requires if |w| > 0 then !IsDigit(At(s, i + |w|)) else !IsDigit(At(s, i)) || At(s, i) == 48
    ensures ScanWhole(s, i) == w
  {
    HeadByte(s, i, w);
    if |w| > 0 {
      DigitsRun(s, i, w);
    }
  }

  // ---- Integers ----

  const INT_MIN: int := -0x8000_0000
  const INT_MAX: int := 0x7FFF_FFFF

  // A real number that is a 32-bit integer, as the "%d" path of print_number asks.
  predicate Int32(r: real) {
    r == r.Floor as real && INT_MIN <= r.Floor <= INT_MAX
  }

  // The conversion (int)r truncates; outside the range C leaves it undefined, and INT_MIN is
  // what the usual hardware delivers.
  function IntOf(r: real): int {
    var t := if r < 0.0 then -((-r).Floor) else r.Floor;
    if INT_MIN <= t <= INT_MAX then t else INT_MIN
  }

  // Toward zero, and what the usual hardware delivers outside the range.
  lemma IntOfTruncates(r: real)
    ensures if -2147483649.0 < r < 2147483648.0 then
              var n := IntOf(r);
              && (r >= 0.0 ==> 0.0 <= n as real <= r < n as real + 1.0)
              && (r <= 0.0 ==> n as real - 1.0 < r <= n as real <= 0.0)
            else IntOf(r) == -2147483648
  {
  }

  lemma IntOfInt32(r: real)
    requires Int32(r)
    ensures IntOf(r) == r.Floor
  {
    if r < 0.0 {
      assert (-r) == (-r.Floor) as real;
    }
  }

  function DecNat(n: nat): (w: bytes)
    ensures |w| > 0
  {
    if n < 10 then [48 + n] else DecNat(n / 10) + [48 + n % 10]
  }

  // "%d"
  function Dec(n: int): bytes {
    if n < 0 then [45] + DecNat(-n) else DecNat(n)
  }

  lemma {:induction false} DecNatDigits(n: nat)
    ensures AllDigits(DecNat(n)) && NatOf(DecNat(n)) == n
    ensures n > 0 ==> DecNat(n)[0] != 48
  {
    if n >= 10 {
      DecNatDigits(n / 10);
      assert DecNat(n)[..|DecNat(n)| - 1] == DecNat(n / 10);
    }
  }

  function DecTok(n: int): NumTok {
    if n == 0 then NumTok(false, true, [], [], NoExp)
    else NumTok(n < 0, false, DecNat(if n < 0 then -n else n), [], NoExp)
  }

  // The decimal rendering is a token of the standard and its value is the integer.
  lemma DecIsToken(n: int)
    ensures Rfc(DecTok(n)) && Text(DecTok(n)) == Dec(n) && Value(DecTok(n)) == n as real
  {
    var m := if n < 0 then -n else n;
    DecNatDigits(m);
    DecText(n);
    var tok := DecTok(n);
    assert tok.whole + tok.frac == tok.whole;
    SignedInt(n < 0, m);
  }

  lemma DecText(n: int)
    ensures Text(DecTok(n)) == Dec(n)
  {
  }

  lemma SignedInt(neg: bool, n: nat)
    ensures Signed(neg, n, 0) == if neg then -(n as real) else n as real
  {
    assert Pow10(0) == 1.0;
  }

  // Ten digits and a sign are the most a 32-bit integer takes; the buffer holds 21 bytes.
  lemma DecFits(n: int)
    requires INT_MIN <= n <= INT_MAX
    ensures |Dec(n)| <= 11
  {
    DecNatLength(if n < 0 then -n else n, 9);
  }

  lemma {:induction false} DecNatLength(n: nat, k: nat)
    requires n < TenTo(k + 1)
    ensures |DecNat(n)| <= k + 1
  {
    if n >= 10 {
      assert k > 0;
      DecNatLength(n / 10, k - 1);
    }
  }

  function TenTo(k: nat): nat {
    if k == 0 then 1 else 10 * TenTo(k - 1)
  }
}
