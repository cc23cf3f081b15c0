// String literals: the two scans of the decoder, the escaping printer, and the tokens of
// section 7 of RFC 8259 they are measured against.
module Strings {
  import opened Bytes
  import Utf8

  const QUOTE: byte := 34
  const BACKSLASH: byte := 92
  const LOWER_U: byte := 117

  predicate IsHex(c: byte) {
    IsDigit(c) || 97 <= c <= 102 || 65 <= c <= 70
  }

  function HexVal(c: byte): (v: nat)
    requires IsHex(c)
    ensures v < 16
  {
    if IsDigit(c) then c - 48 else if c >= 97 then c - 87 else c - 55
  }

  predicate Hex4(s: bytes, p: nat) {
    p + 4 <= |s| && IsHex(s[p]) && IsHex(s[p + 1]) && IsHex(s[p + 2]) && IsHex(s[p + 3])
  }

  // What sscanf("%4x") reads from four hexadecimal digits.
  function HexQuad(a: byte, b: byte, c: byte, d: byte): (u: nat)
    requires IsHex(a) && IsHex(b) && IsHex(c) && IsHex(d)
    ensures u < 0x10000
  {
    HexVal(a) * 4096 + HexVal(b) * 256 + HexVal(c) * 16 + HexVal(d)
  }

  // c is a digit of value k in base sixteen, in either case.
  predicate DigitOf(c: byte, k: nat) {
    (k < 10 && c == 48 + k) || (10 <= k < 16 && (c == 87 + k || c == 55 + k))
  }

  // Four digits are read by their places, and nothing but digits is.
  lemma HexReads(u: nat, a: byte, b: byte, c: byte, d: byte)
    requires DigitOf(a, u / 4096) && DigitOf(b, u / 256 % 16) && DigitOf(c, u / 16 % 16) && DigitOf(d, u % 16)
    ensures IsHex(a) && IsHex(b) && IsHex(c) && IsHex(d) && HexQuad(a, b, c, d) == u
  {
    Nibbles(u);
  }

  lemma Nibbles(u: nat)
    ensures u == u / 4096 * 4096 + u / 256 % 16 * 256 + u / 16 % 16 * 16 + u % 16
  {
    var a, b := u / 16, u / 256;
    assert u == 16 * a + u % 16 && a == 16 * b + a % 16 && b == 16 * (b / 16) + b % 16;
    assert a / 16 == b && b / 16 == u / 4096;
  }

  lemma HexIff(c: byte)
    ensures IsHex(c) <==> exists k :: DigitOf(c, k)
  {
    if IsHex(c) {
      assert DigitOf(c, HexVal(c));
    }
  }

  function CodeUnit(s: bytes, p: nat): (u: nat)
    requires Hex4(s, p)
    ensures u < 0x10000
  {
    HexQuad(s[p], s[p + 1], s[p + 2], s[p + 3])
  }

  // The byte at which both scans of a literal stop: a closing quote or the terminator.
  predicate Stops(c: byte) {
    c == QUOTE || c == 0
  }

  // From p to the closing quote (or the terminator) no escape is cut short: a backslash is
  // followed by a byte, and \u by four hexadecimal digits. The decoder's fixed steps of 4
  // and 6 bytes read past the literal otherwise.
  predicate Complete(s: bytes, p: nat)
    requires p <= |s|
    decreases |s| - p
  {
    if Stops(At(s, p)) then true
    else if s[p] != BACKSLASH then Complete(s, p + 1)
    else if At(s, p + 1) == 0 then false
    else if s[p + 1] != LOWER_U then Complete(s, p + 2)
    else Hex4(s, p + 2) && Complete(s, p + 6)
  }

  function Unescaped(c: byte): byte {
    if c == 98 then 8 else if c == 102 then 12 else if c == 110 then 10
    else if c == 114 then 13 else if c == 116 then 9 else c
  }

  // A \u escape holding a first half joins with a \u escape standing right behind it.
  predicate Joins(s: bytes, p: nat)
    requires p <= |s| && Hex4(s, p + 2)
  {
    && Utf8.HighSurrogate(CodeUnit(s, p + 2))
    && At(s, p + 6) == BACKSLASH && At(s, p + 7) == LOWER_U
  }

  // Bytes the decoding scan advances over in one turn of its loop.
  function UnitLen(s: bytes, p: nat): (n: nat)
    requires p <= |s| && Complete(s, p) && !Stops(At(s, p))
    ensures 0 < n && p + n <= |s| && Complete(s, p + n)
  {
    if s[p] != BACKSLASH then 1
    else if s[p + 1] != LOWER_U then 2
    else if Joins(s, p) then assert Complete(s, p + 6); 12
    else 6
  }

  // Bytes the decoding scan stores in one turn: nothing for a null code unit, a lone half,
  // or a pair whose second half is no second half.
  function UnitOut(s: bytes, p: nat): bytes
    requires p <= |s| && Complete(s, p) && !Stops(At(s, p))
  {
    if s[p] != BACKSLASH then [s[p]]
    else if s[p + 1] != LOWER_U then [Unescaped(s[p + 1])]
    else if Joins(s, p) then assert Complete(s, p + 6); PairOut(CodeUnit(s, p + 2), CodeUnit(s, p + 8))
    else SingleOut(CodeUnit(s, p + 2))
  }

  function SingleOut(u: nat): bytes
    requires u < 0x10000
  {
    if u == 0 || Utf8.HighSurrogate(u) || Utf8.LowSurrogate(u) then [] else Utf8.Encode(u)
  }

  function PairOut(u: nat, u2: nat): bytes
    requires Utf8.HighSurrogate(u)
  {
    if Utf8.LowSurrogate(u2) then
      Utf8.JoinValue(u, u2);
      Utf8.Encode(Utf8.Join(u, u2))
    else []
  }

  function Decode(s: bytes, p: nat): bytes
    requires p <= |s| && Complete(s, p)
    decreases |s| - p
  {
    if Stops(At(s, p)) then [] else UnitOut(s, p) + Decode(s, p + UnitLen(s, p))
  }

  // Where the decoding scan stops.
  function Close(s: bytes, p: nat): (q: nat)
    requires p <= |s| && Complete(s, p)
    ensures p <= q <= |s| && Stops(At(s, q))
    decreases |s| - p
  {
    if Stops(At(s, p)) then p else Close(s, p + UnitLen(s, p))
  }

  // The cursor parse_string returns for the literal whose opening quote is at p - 1.
  function AfterLiteral(s: bytes, p: nat): (q: nat)
    requires p <= |s| && Complete(s, p)
    ensures p <= q <= |s|
  {
    var q := Close(s, p);
    if At(s, q) == QUOTE then q + 1 else q
  }

  lemma HexDigitsComplete(s: bytes, p: nat)
    requires Hex4(s, p) && Complete(s, p + 4)
    ensures Complete(s, p) && Complete(s, p + 1) && Complete(s, p + 2) && Complete(s, p + 3)
  {
    assert Complete(s, p + 3);
    assert Complete(s, p + 2);
    assert Complete(s, p + 1);
  }

  // The measuring scan: steps of one byte, or two over a backslash; len counts the turns.
  function MeasureEnd(s: bytes, p: nat): nat
    requires p <= |s| && Complete(s, p)
    decreases |s| - p
  {
    if Stops(At(s, p)) then p
    else if s[p] != BACKSLASH then MeasureEnd(s, p + 1)
    else MeasureSkip(s, p); MeasureEnd(s, p + 2)
  }

  function MeasureLen(s: bytes, p: nat): nat
    requires p <= |s| && Complete(s, p)
    decreases |s| - p
  {
    if Stops(At(s, p)) then 0
    else if s[p] != BACKSLASH then 1 + MeasureLen(s, p + 1)
    else MeasureSkip(s, p); 1 + MeasureLen(s, p + 2)
  }

  // Skipping a backslash and one byte never passes the terminator of a complete literal.
  lemma MeasureSkip(s: bytes, p: nat)
    requires p < |s| && Complete(s, p) && s[p] == BACKSLASH
    ensures p + 2 <= |s| && Complete(s, p + 2)
  {
    if s[p + 1] == LOWER_U {
      HexDigitsComplete(s, p + 2);
    }
  }

  lemma MeasureHexDigits(s: bytes, p: nat)
    requires Hex4(s, p) && Complete(s, p + 4) && Complete(s, p)
    ensures MeasureEnd(s, p) == MeasureEnd(s, p + 4)
    ensures MeasureLen(s, p) == 4 + MeasureLen(s, p + 4)
  {
    HexDigitsComplete(s, p);
    assert MeasureEnd(s, p) == MeasureEnd(s, p + 1);
    assert MeasureEnd(s, p + 2) == MeasureEnd(s, p + 3);
    assert MeasureLen(s, p) == 1 + MeasureLen(s, p + 1);
    assert MeasureLen(s, p + 2) == 1 + MeasureLen(s, p + 3);
  }

  // One turn of the decoding scan against the turns of the measuring scan over the same bytes.
  lemma MeasureUnit(s: bytes, p: nat)
    requires p <= |s| && Complete(s, p) && !Stops(At(s, p))
    ensures MeasureEnd(s, p) == MeasureEnd(s, p + UnitLen(s, p))
    ensures MeasureLen(s, p) >= |UnitOut(s, p)| + MeasureLen(s, p + UnitLen(s, p))
  {
    if s[p] == BACKSLASH {
      MeasureSkip(s, p);
      if s[p + 1] == LOWER_U {
        MeasureHexDigits(s, p + 2);
        if Joins(s, p) {
          MeasureSkip(s, p + 6);
          MeasureHexDigits(s, p + 8);
        }
      }
    }
  }

  // Both scans stop at the same byte, and the decoded bytes fit the measured length.
  lemma {:induction false} SameClose(s: bytes, p: nat)
    requires p <= |s| && Complete(s, p)
    ensures MeasureEnd(s, p) == Close(s, p)
    ensures |Decode(s, p)| <= MeasureLen(s, p)
    decreases |s| - p
  {
    hide UnitLen, UnitOut;
    if !Stops(At(s, p)) {
      MeasureUnit(s, p);
      SameClose(s, p + UnitLen(s, p));
    }
  }

  lemma EncodeNulFree(c: nat)
    requires 0 < c < 0x110000
    ensures NulFree(Utf8.Encode(c))
  {
  }

  // No escape decodes to a NUL, so the decoded bytes are a C string.
  lemma {:induction false} DecodeNulFree(s: bytes, p: nat)
    requires p <= |s| && Complete(s, p)
    ensures NulFree(Decode(s, p))
    decreases |s| - p
  {
    hide Utf8.Encode, Utf8.Join;
    if !Stops(At(s, p)) {
      DecodeNulFree(s, p + UnitLen(s, p));
      if s[p] == BACKSLASH && s[p + 1] == LOWER_U {
        var u := CodeUnit(s, p + 2);
        if Joins(s, p) {
          var u2 := CodeUnit(s, p + 8);
          if Utf8.LowSurrogate(u2) {
            Utf8.JoinValue(u, u2);
            EncodeNulFree(Utf8.Join(u, u2));
          }
        } else if u != 0 {
          EncodeNulFree(u);
        }
      }
      assert NulFree(UnitOut(s, p));
    }
  }
}
