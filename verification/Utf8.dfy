// UTF-8 output of the string decoder: the backward fill, its inverse, and the surrogate join.
module Utf8 {
  import opened Bytes
  import opened Bits

  // The UTF-8 form of a code point (section 3 of RFC 3629).
  function Encode(c: nat): bytes
    requires c < 0x110000
  {
    if c < 0x80 then [c]
    else if c < 0x800 then [0xC0 + c / 64, 0x80 + c % 64]
    else if c < 0x10000 then [0xE0 + c / 4096, 0x80 + c / 64 % 64, 0x80 + c % 64]
    else [0xF0 + c / 262144, 0x80 + c / 4096 % 64, 0x80 + c / 64 % 64, 0x80 + c % 64]
  }

  // Reading one UTF-8 sequence back: the lead byte tells how many continuation bytes follow.
  function Decode(s: bytes): Option<nat> {
    if |s| == 1 && s[0] < 0x80 then Some(s[0])
    else if |s| == 2 && 0xC0 <= s[0] < 0xE0 && Tail(s[1])
    then Some((s[0] as int - 0xC0) * 64 + (s[1] as int - 0x80))
    else if |s| == 3 && 0xE0 <= s[0] < 0xF0 && Tail(s[1]) && Tail(s[2])
    then Some((s[0] as int - 0xE0) * 4096 + (s[1] as int - 0x80) * 64 + (s[2] as int - 0x80))
    else if |s| == 4 && 0xF0 <= s[0] < 0xF8 && Tail(s[1]) && Tail(s[2]) && Tail(s[3])
    then Some((s[0] as int - 0xF0) * 262144 + (s[1] as int - 0x80) * 4096 + (s[2] as int - 0x80) * 64
      + (s[3] as int - 0x80))
    else None
  }

  predicate Tail(b: byte) {
    0x80 <= b < 0xC0
  }

  lemma DecodeEncode(c: nat)
    requires c < 0x110000
    ensures Decode(Encode(c)) == Some(c)
  {
    hide Decode;
    if c < 0x80 {
      OneByte(c);
    } else if c < 0x800 {
      TwoBytes(c / 64, c % 64);
    } else if c < 0x10000 {
      Sixes(c);
      ThreeBytes(c / 4096, c / 64 % 64, c % 64);
    } else {
      Sixes(c);
      FourBytes(c / 262144, c / 4096 % 64, c / 64 % 64, c % 64);
    }
  }

  lemma OneByte(a: nat)
    requires a < 0x80
    ensures Decode([a]) == Some(a)
  {
  }

  lemma TwoBytes(a: nat, b: nat)
    requires a < 32 && b < 64
    ensures Decode([0xC0 + a, 0x80 + b]) == Some(a * 64 + b)
  {
  }

  lemma ThreeBytes(a: nat, b: nat, c: nat)
    requires a < 16 && b < 64 && c < 64
    ensures Decode([0xE0 + a, 0x80 + b, 0x80 + c]) == Some(a * 4096 + b * 64 + c)
  {
  }

  lemma FourBytes(a: nat, b: nat, c: nat, d: nat)
    requires a < 8 && b < 64 && c < 64 && d < 64
    ensures Decode([0xF0 + a, 0x80 + b, 0x80 + c, 0x80 + d]) == Some(a * 262144 + b * 4096 + c * 64 + d)
  {
  }

  // A number in groups of six bits.
  lemma Sixes(c: nat)
    ensures c / 4096 == c / 64 / 64 && c / 262144 == c / 64 / 64 / 64
    ensures c == c / 4096 * 4096 + c / 64 % 64 * 64 + c % 64
    ensures c / 4096 == c / 262144 * 64 + c / 4096 % 64
  {
  }

  // (uc | 0x80) & 0xBF: the marker bit over the low six bits.
  lemma ContinuationByte(uc: nat)
    ensures And(Or(uc, 0x80), 0xBF) == 0x80 + uc % 64
  {
    hide Or, And, Shl;
    var h, l := uc / 128, uc % 128;
    assert uc == 128 * h + l && l < 128;
    MarkBit(h, l);
    MaskBF(h + 1 - h % 2, l);
  }

  lemma MarkBit(h: nat, l: nat)
    requires l < 128
    ensures Or(128 * h + l, 0x80) == 128 * (h + 1 - h % 2) + l
  {
    hide Or, Shl;
    ShlValues(h); ShlValues(1); ShlValues(Or(h, 1));
    OrSplit(h, l, 1, 0, 7);
    OrOne(h);
    OrZero(l);
  }

  lemma MaskBF(h: nat, l: nat)
    requires h % 2 == 1 && l < 128
    ensures And(128 * h + l, 0xBF) == 0x80 + l % 64
  {
    hide Or, And, Shl;
    var top := 2 * h + l / 64;
    ShlValues(1); ShlValues(2); ShlValues(top); ShlValues(And(top, 2));
    AndSplit(top, l % 64, 2, 63, 6);
    AndOnes(l % 64, 6);
    AndHalves(h, l / 64, 1, 0);
    AndHalves(h / 2, 1, 0, 1);
    AndZero(h / 2);
  }

  const FIRST_BYTE_MARK: seq<nat> := [0x00, 0x00, 0xC0, 0xE0, 0xF0, 0xF8, 0xFC]

  // uc | firstByteMark[len], once uc has been shifted down to its leading bits.
  lemma LeadByte(uc: nat, len: nat)
    requires 1 <= len <= 4
    requires uc < [0, 0x80, 0x20, 0x10, 0x08][len]
    ensures Or(uc, FIRST_BYTE_MARK[len]) == FIRST_BYTE_MARK[len] + uc
  {
    hide Or, And, Shl;
    ShlValues(1);
    if len == 1 {
      OrZero(uc);
    } else if len == 2 {
      ShlValues(6);
      OrDisjoint(6, uc, 5);
    } else {
      var ah := if len == 3 then 14 else 15;
      ShlValues(ah);
      OrDisjoint(ah, uc, 4);
    }
  }

  method ContinuationStep(uc: nat) returns (b: byte, rest: nat)
    ensures b == 0x80 + uc % 64 && rest == uc / 64
  {
    ContinuationByte(uc);
    ShrSix(uc);
    b, rest := And(Or(uc, 0x80), 0xBF), Shr(uc, 6);
  }

  method LeadStep(uc: nat, len: nat) returns (b: byte)
    requires 1 <= len <= 4 && uc < [0, 0x80, 0x20, 0x10, 0x08][len]
    ensures b == FIRST_BYTE_MARK[len] + uc
  {
    LeadByte(uc, len);
    b := Or(uc, FIRST_BYTE_MARK[len]);
  }

  // The decoder's fill: step past the sequence, write it backwards six bits at a time by
  // falling through the cases, and leave the lead byte for last.
  method Fill(out: array<byte>, start: nat, code: nat) returns (end: nat)
    requires code < 0x110000 && start + |Encode(code)| <= out.Length
    modifies out
    ensures end == start + |Encode(code)| <= out.Length
    ensures out[start..end] == Encode(code)
    ensures out[..start] == old(out[..start])
  {
    hide Or, And, Shr, Encode;
    EncodeBySixes(code);
    var uc, len := code, 4;
    if uc < 0x80 { len := 1; } else if uc < 0x800 { len := 2; } else if uc < 0x10000 { len := 3; }
    var p := start + len;
    if len >= 4 {
      p := p - 1;
      out[p], uc := ContinuationStep(uc);
    }
    if len >= 3 {
      p := p - 1;
      out[p], uc := ContinuationStep(uc);
    }
    if len >= 2 {
      p := p - 1;
      out[p], uc := ContinuationStep(uc);
    }
    p := p - 1;
    out[p] := LeadStep(uc, len);
    end := p + len;
    assert out[start..end] == Encode(code);
  }

  // The bytes of the form, in the order the fill comes to them.
  lemma EncodeBySixes(c: nat)
    requires c < 0x110000
    ensures var a, b, d := c / 64, c / 64 / 64, c / 64 / 64 / 64;
            Encode(c) == if c < 0x80 then [c]
                         else if c < 0x800 then [0xC0 + a, 0x80 + c % 64]
                         else if c < 0x10000 then [0xE0 + b, 0x80 + a % 64, 0x80 + c % 64]
                         else [0xF0 + d, 0x80 + b % 64, 0x80 + a % 64, 0x80 + c % 64]
    ensures (c < 0x800 ==> c / 64 < 0x20) && (c < 0x10000 ==> c / 64 / 64 < 0x10) && c / 64 / 64 / 64 < 8
  {
    Sixes(c);
  }

  predicate HighSurrogate(u: nat) {
    0xD800 <= u <= 0xDBFF
  }

  predicate LowSurrogate(u: nat) {
    0xDC00 <= u <= 0xDFFF
  }

  // The 20-bit value a surrogate pair carries.
  function PairValue(hi: nat, lo: nat): nat
    requires HighSurrogate(hi) && LowSurrogate(lo)
  {
    (hi - 0xD800) * 1024 + (lo - 0xDC00)
  }

  // The code point of a surrogate pair (section 2.2 of RFC 2781).
  function PairCodePoint(hi: nat, lo: nat): nat
    requires HighSurrogate(hi) && LowSurrogate(lo)
  {
    PairValue(hi, lo) + 0x10000
  }

  // What the decoder computes: 0x10000 | ((hi & 0x3FF) << 10) | (lo & 0x3FF).
  function Join(hi: nat, lo: nat): nat {
    Or(Or(0x10000, Shl(And(hi, 0x3FF), 10)), And(lo, 0x3FF))
  }

  // Bit 16 of the pair's value is lost in the OR: a pair for plane 2k lands in plane 2k - 1.
  lemma JoinValue(hi: nat, lo: nat)
    requires HighSurrogate(hi) && LowSurrogate(lo)
    ensures Join(hi, lo) == if PairValue(hi, lo) / 0x10000 % 2 == 0 then PairCodePoint(hi, lo)
                            else PairCodePoint(hi, lo) - 0x10000
    ensures 0x10000 <= Join(hi, lo) < 0x110000
  {
    hide Or, And, Shl;
    var h, l := hi - 0xD800, lo - 0xDC00;
    assert hi == 1024 * 54 + h && lo == 1024 * 55 + l;
    LowTenBits(54, h);
    LowTenBits(55, l);
    OrPlane(h, l);
    assert Shl(h, 10) == 1024 * h by { ShlValues(h); }
  }

  lemma OrPlane(h: nat, l: nat)
    requires h < 1024 && l < 1024
    ensures Or(Or(0x10000, 1024 * h), l) == 1024 * h + l + (if h / 64 % 2 == 0 then 0x10000 else 0)
  {
    hide Or, And, Shl;
    PlaneBit(h / 64, h % 64);
    var joined := 64 * (h / 64 + 1 - h / 64 % 2) + h % 64;
    ShlValues(1); ShlValues(joined);
    OrDisjoint(joined, l, 10);
  }

  lemma LowTenBits(top: nat, low: nat)
    requires low < 1024
    ensures And(1024 * top + low, 0x3FF) == low
  {
    hide Or, And, Shl;
    ShlValues(1); ShlValues(top);
    AndMask(top, low, 10);
  }

  lemma PlaneBit(top: nat, low: nat)
    requires low < 64
    ensures Or(0x10000, 1024 * (64 * top + low)) == 1024 * (64 * (top + 1 - top % 2) + low)
  {
    hide Or, And, Shl;
    ShlValues(1); ShlValues(top); ShlValues(Or(1, top));
    OrSplit(1, 0, top, 1024 * low, 16);
    OrOne(top);
    OrZero(1024 * low);
  }

  // The join agrees with the standard exactly when bit 16 of the 20-bit value is clear.
  lemma JoinIsStandardIff(hi: nat, lo: nat)
    requires HighSurrogate(hi) && LowSurrogate(lo)
    ensures Join(hi, lo) == PairCodePoint(hi, lo) <==> PairValue(hi, lo) / 0x10000 % 2 == 0
  {
    hide Join;
    JoinValue(hi, lo);
  }

  // Every pair for an even plane lands one plane lower; D840 DC00, for U+20000, is one.
  lemma EvenPlanesLandOneLower(hi: nat, lo: nat)
    requires HighSurrogate(hi) && LowSurrogate(lo) && PairCodePoint(hi, lo) / 0x10000 % 2 == 0
    ensures Join(hi, lo) == PairCodePoint(hi, lo) - 0x10000
    ensures PairCodePoint(0xD840, 0xDC00) == 0x20000 && Join(0xD840, 0xDC00) == 0x10000
  {
    hide Join;
    JoinValue(hi, lo);
    JoinValue(0xD840, 0xDC00);
    PlaneAbove(PairValue(hi, lo));
  }

  lemma PlaneAbove(v: nat)
    ensures (v + 0x10000) / 0x10000 == v / 0x10000 + 1
  {
  }
}
