// The two scans of parse_string and the two passes of print_string_ptr, over byte buffers.
module StringScans {
  import opened Bytes
  import opened Strings
  import opened StringTokens
  import Utf8

  // The measuring scan.
  method Measure(text: bytes, p: nat) returns (len: nat)
    requires p <= |text| && Complete(text, p)
    ensures len == MeasureLen(text, p)
  {
    var ptr := p;
    len := 0;
    while !Stops(At(text, ptr))
      invariant p <= ptr <= |text| && Complete(text, ptr)
      invariant len + MeasureLen(text, ptr) == MeasureLen(text, p)
      decreases |text| - ptr
    {
      len := len + 1;
      if text[ptr] == BACKSLASH {
        MeasureSkip(text, ptr);
        ptr := ptr + 1;
      }
      ptr := ptr + 1;
    }
  }

  lemma {:induction false} TurnOut(before: bytes, text: bytes, p: nat)
    requires p <= |text| && Complete(text, p) && !Stops(At(text, p))
    ensures before + Decode(text, p) == (before + UnitOut(text, p)) + Decode(text, p + UnitLen(text, p))
    ensures Close(text, p) == Close(text, p + UnitLen(text, p))
  {
    hide UnitOut, UnitLen;
  }

  lemma {:induction false} Stopped(text: bytes, p: nat)
    requires p <= |text| && Complete(text, p) && Stops(At(text, p))
    ensures Decode(text, p) == [] && Close(text, p) == p
  {
  }

  // The decoding scan: the decoded bytes, the cursor at the stop, and the end of the output.
  method DecodeInto(out: array<byte>, text: bytes, p: nat) returns (ptr: nat, end: nat)
    requires p <= |text| && Complete(text, p) && |Decode(text, p)| < out.Length
    modifies out
    ensures ptr == Close(text, p) && end == |Decode(text, p)|
    ensures out[..end] == Decode(text, p)
  {
    hide UnitOut, UnitLen, Decode, Close, Complete;
    ptr, end := p, 0;
    while !Stops(At(text, ptr))
      invariant p <= ptr <= |text| && Complete(text, ptr) && end <= out.Length
      invariant Close(text, ptr) == Close(text, p)
      invariant out[..end] + Decode(text, ptr) == Decode(text, p)
      decreases |text| - ptr
    {
      TurnOut(out[..end], text, ptr);
      ptr, end := DecodeUnit(out, end, text, ptr);
    }
    assert Decode(text, ptr) == [] && ptr == Close(text, ptr) by { Stopped(text, ptr); }
    assert out[..end] + [] == out[..end];
  }

  // One turn of the decoding scan.
  method DecodeUnit(out: array<byte>, at: nat, text: bytes, p: nat) returns (ptr: nat, end: nat)
    requires p <= |text| && Complete(text, p) && !Stops(At(text, p))
    requires at + |UnitOut(text, p)| < out.Length
    modifies out
    ensures ptr == p + UnitLen(text, p) && end == at + |UnitOut(text, p)|
    ensures out[..end] == old(out[..at]) + UnitOut(text, p)
  {
    ptr, end := p, at;
    if text[ptr] != BACKSLASH {
      out[end] := text[ptr];
      ptr, end := ptr + 1, end + 1;
    } else if text[ptr + 1] == LOWER_U {
      ptr, end := DecodeEscape(out, at, text, p);
    } else {
      ptr := ptr + 1;
      out[end] := Unescaped(text[ptr]);
      ptr, end := ptr + 1, end + 1;
    }
  }

  lemma EscapeCases(text: bytes, p: nat)
    requires p < |text| && Complete(text, p) && text[p] == BACKSLASH && text[p + 1] == LOWER_U
    ensures Hex4(text, p + 2)
    ensures !Joins(text, p) ==> UnitLen(text, p) == 6 && UnitOut(text, p) == SingleOut(CodeUnit(text, p + 2))
    ensures Joins(text, p) ==> && Hex4(text, p + 8) && UnitLen(text, p) == 12
                               && UnitOut(text, p) == PairOut(CodeUnit(text, p + 2), CodeUnit(text, p + 8))
  {
    if Joins(text, p) {
      assert Complete(text, p + 6);
    }
  }

  // The \u case: the code unit, the second half of a pair if one follows, and the fill.
  method DecodeEscape(out: array<byte>, at: nat, text: bytes, p: nat) returns (ptr: nat, end: nat)
    requires p < |text| && Complete(text, p) && text[p] == BACKSLASH && text[p + 1] == LOWER_U
    requires at + |UnitOut(text, p)| < out.Length
    modifies out
    ensures ptr == p + UnitLen(text, p) && end == at + |UnitOut(text, p)|
    ensures out[..end] == old(out[..at]) + UnitOut(text, p)
  {
    EscapeCases(text, p);
    hide Complete, UnitLen, UnitOut, Hex4, CodeUnit, Utf8.Encode, Utf8.Join;
    end := at;
    var uc := CodeUnit(text, p + 2);
    ptr := p + 6;
    if Utf8.LowSurrogate(uc) || uc == 0 {
      return;
    }
    if Utf8.HighSurrogate(uc) {
      if At(text, ptr) != BACKSLASH || At(text, ptr + 1) != LOWER_U {
        return;
      }
      var uc2 := CodeUnit(text, ptr + 2);
      ptr := ptr + 6;
      if !Utf8.LowSurrogate(uc2) {
        return;
      }
      Utf8.JoinValue(uc, uc2);
      uc := Utf8.Join(uc, uc2);
    }
    assert UnitOut(text, p) == Utf8.Encode(uc);
    end := Utf8.Fill(out, at, uc);
    assert out[..end] == out[..at] + out[at..end];
  }

  // The counting pass of the printer.
  method Count(s: bytes) returns (len: nat)
    ensures len == |QuoteBody(s)|
  {
    CountIsExact(s);
    var i := 0;
    len := 0;
    while i < |s|
      invariant 0 <= i <= |s| && len + CountLen(s[i..]) == CountLen(s)
    {
      assert s[i..][1..] == s[i + 1..];
      len := len + 1;
      if s[i] in [34, 92, 8, 12, 10, 13, 9] {
        len := len + 1;
      } else if s[i] < 32 {
        len := len + 5;
      }
      i := i + 1;
    }
  }

  // The emitting pass: quote, escaped bytes, quote, terminator fill the buffer to its end.
  method Emit(out: array<byte>, s: bytes)
    requires out.Length == |QuoteBody(s)| + 3
    modifies out
    ensures out[..out.Length - 1] == Quote(s) && out[out.Length - 1] == 0
  {
    out[0] := QUOTE;
    var i, p := 0, 1;
    while i < |s|
      invariant 0 <= i <= |s| && 1 <= p && p + |QuoteBody(s[i..])| == |QuoteBody(s)| + 1
      invariant out[..p] + QuoteBody(s[i..]) == [QUOTE] + QuoteBody(s)
    {
      ghost var before, rest := out[..p], QuoteBody(s[i + 1..]);
      assert s[i..][1..] == s[i + 1..];
      assert before + (ChText(QuoteCh(s[i])) + rest) == (before + ChText(QuoteCh(s[i]))) + rest;
      p := EmitCh(out, p, s[i]);
      i := i + 1;
    }
    assert out[..p] + [] == out[..p];
    out[p] := QUOTE;
    out[p + 1] := 0;
  }

  method EmitCh(out: array<byte>, at: nat, c: byte) returns (p: nat)
    requires at + |ChText(QuoteCh(c))| <= out.Length
    modifies out
    ensures p == at + |ChText(QuoteCh(c))|
    ensures out[..p] == old(out[..at]) + ChText(QuoteCh(c))
  {
    if Plain(c) {
      out[at] := c;
      p := at + 1;
    } else {
      out[at] := BACKSLASH;
      if c == 92 || c == 34 {
        out[at + 1] := c;
        p := at + 2;
      } else if c == 8 || c == 12 || c == 10 || c == 13 || c == 9 {
        out[at + 1] := if c == 8 then 98 else if c == 12 then 102 else if c == 10 then 110 else if c == 13 then 114
          else 116;
        p := at + 2;
      } else {
        out[at + 1], out[at + 2], out[at + 3] := LOWER_U, 48, 48;
        out[at + 4], out[at + 5] := HexDigit(c / 16), HexDigit(c % 16);
        p := at + 6;
      }
    }
  }
}
