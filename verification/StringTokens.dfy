// String literals as token sequences: what section 7 of RFC 8259 lets a literal contain, what
// the standard says it denotes, and exactly when the decoder agrees. Also the printer's side:
// every escaped text is such a token sequence and decodes to the bytes it was made from.
module StringTokens {
  import opened Bytes
  import opened Strings
  import Utf8

  // A plain byte, a backslash escape other than \u, or \u with its four digits.
  datatype Ch =
    | Raw(b: byte)
    | Esc(c: byte)
    | Uni(h0: byte, h1: byte, h2: byte, h3: byte)

  // The tokens the decoder accepts inside a literal.
  predicate WfCh(ch: Ch) {
    match ch
    case Raw(b) => b != 0 && b != QUOTE && b != BACKSLASH
    case Esc(c) => c != 0 && c != LOWER_U
    case Uni(a, b, c, d) => IsHex(a) && IsHex(b) && IsHex(c) && IsHex(d)
  }

  predicate Wf(chs: seq<Ch>) {
    forall i :: 0 <= i < |chs| ==> WfCh(chs[i])
  }

  // The tokens of section 7 of RFC 8259.
  predicate RfcCh(ch: Ch) {
    match ch
    case Raw(b) => b >= 32 && b != QUOTE && b != BACKSLASH
    case Esc(c) => c in [34, 92, 47, 98, 102, 110, 114, 116]
    case Uni(a, b, c, d) => IsHex(a) && IsHex(b) && IsHex(c) && IsHex(d)
  }

  predicate Rfc(chs: seq<Ch>) {
    forall i :: 0 <= i < |chs| ==> RfcCh(chs[i])
  }

  function ChText(ch: Ch): (t: bytes)
    ensures |t| > 0
  {
    match ch
    case Raw(b) => [b]
    case Esc(c) => [BACKSLASH, c]
    case Uni(a, b, c, d) => [BACKSLASH, LOWER_U, a, b, c, d]
  }

  function Text(chs: seq<Ch>): bytes {
    if chs == [] then [] else ChText(chs[0]) + Text(chs[1..])
  }

  function Unit(ch: Ch): nat
    requires ch.Uni? && WfCh(ch)
  {
    HexQuad(ch.h0, ch.h1, ch.h2, ch.h3)
  }

  // A first half with another \u escape right behind it.
  predicate JoinsNext(chs: seq<Ch>)
    requires Wf(chs) && chs != []
  {
    chs[0].Uni? && Utf8.HighSurrogate(Unit(chs[0])) && |chs| > 1 && chs[1].Uni?
  }

  // The bytes the decoder makes of the tokens.
  function Meaning(chs: seq<Ch>): bytes
    requires Wf(chs)
  {
    if chs == [] then []
    else if JoinsNext(chs) then PairOut(Unit(chs[0]), Unit(chs[1])) + Meaning(chs[2..])
    else ChOut(chs[0]) + Meaning(chs[1..])
  }

  function ChOut(ch: Ch): bytes
    requires WfCh(ch)
  {
    match ch
    case Raw(b) => [b]
    case Esc(c) => [Unescaped(c)]
    case Uni(_, _, _, _) => SingleOut(Unit(ch))
  }

  // The token ch is what the buffer holds at p.
  predicate StandsAt(s: bytes, p: nat, ch: Ch) {
    match ch
    case Raw(b) => p < |s| && s[p] == b
    case Esc(c) => p + 1 < |s| && s[p] == BACKSLASH && s[p + 1] == c
    case Uni(a, b, c, d) => Occurs(s, p, [BACKSLASH, LOWER_U, a, b, c, d])
  }

  lemma ChAt(s: bytes, p: nat, chs: seq<Ch>)
    requires chs != [] && Wf(chs) && Occurs(s, p, Text(chs))
    ensures Occurs(s, p, ChText(chs[0])) && Occurs(s, p + |ChText(chs[0])|, Text(chs[1..]))
    ensures StandsAt(s, p, chs[0]) && |Text(chs)| == |ChText(chs[0])| + |Text(chs[1..])|
  {
    var w := ChText(chs[0]);
    OccursConcat(s, p, w, Text(chs[1..]));
    OccursAt(s, p, w, 0);
    if !chs[0].Raw? { OccursAt(s, p, w, 1); }
  }

  lemma UniAt(s: bytes, p: nat, ch: Ch)
    requires ch.Uni? && WfCh(ch) && StandsAt(s, p, ch)
    ensures s[p] == BACKSLASH && s[p + 1] == LOWER_U && Hex4(s, p + 2)
    ensures CodeUnit(s, p + 2) == Unit(ch)
  {
    var w := ChText(ch);
    OccursAt(s, p, w, 0);
    OccursAt(s, p, w, 1);
    OccursAt(s, p, w, 2);
    OccursAt(s, p, w, 3);
    OccursAt(s, p, w, 4);
    OccursAt(s, p, w, 5);
  }

  lemma {:induction false} TokensComplete(s: bytes, p: nat, chs: seq<Ch>)
    requires Wf(chs) && Occurs(s, p, Text(chs)) && Stops(At(s, p + |Text(chs)|))
    ensures Complete(s, p)
    decreases |chs|
  {
    if chs != [] {
      ChAt(s, p, chs);
      if chs[0].Uni? { UniAt(s, p, chs[0]); }
      TokensComplete(s, p + |ChText(chs[0])|, chs[1..]);
    }
  }

  // One turn of the decoding scan consumes one token, or two that join.
  lemma UnitIsHead(s: bytes, p: nat, chs: seq<Ch>)
    requires chs != [] && Wf(chs) && Occurs(s, p, Text(chs)) && Stops(At(s, p + |Text(chs)|))
    ensures Complete(s, p) && !Stops(At(s, p))
    ensures JoinsNext(chs) ==> UnitLen(s, p) == 12
    ensures JoinsNext(chs) ==> UnitOut(s, p) == PairOut(Unit(chs[0]), Unit(chs[1]))
    ensures !JoinsNext(chs) ==> UnitLen(s, p) == |ChText(chs[0])| && UnitOut(s, p) == ChOut(chs[0])
  {
    TokensComplete(s, p, chs);
    ChAt(s, p, chs);
    if chs[0].Uni? {
      UniAt(s, p, chs[0]);
      if |chs| > 1 {
        ChAt(s, p + 6, chs[1..]);
        if chs[1].Uni? { UniAt(s, p + 6, chs[1]); }
      }
    }
  }

  lemma BehindPair(s: bytes, p: nat, chs: seq<Ch>)
    requires chs != [] && Wf(chs) && JoinsNext(chs) && Occurs(s, p, Text(chs))
    ensures |chs| >= 2 && |Text(chs)| == 12 + |Text(chs[2..])| && Occurs(s, p + 12, Text(chs[2..]))
  {
    ChAt(s, p, chs);
    ChAt(s, p + 6, chs[1..]);
    assert chs[1..][1..] == chs[2..];
  }

  lemma OneTurn(s: bytes, p: nat, n: nat, out: bytes)
    requires p <= |s| && Complete(s, p) && !Stops(At(s, p))
    requires UnitLen(s, p) == n && UnitOut(s, p) == out
    ensures p + n <= |s| && Complete(s, p + n)
    ensures Decode(s, p) == out + Decode(s, p + n) && Close(s, p) == Close(s, p + n)
  {
  }

  // The decoder has read chs from p, and stopped at q.
  predicate ReadsAs(s: bytes, p: nat, chs: seq<Ch>, q: nat)
    requires Wf(chs)
  {
    p <= |s| && Complete(s, p) && Decode(s, p) == Meaning(chs) && Close(s, p) == q
  }

  lemma TurnOverPair(s: bytes, p: nat, chs: seq<Ch>, q: nat)
    requires chs != [] && Wf(chs) && Occurs(s, p, Text(chs)) && Stops(At(s, p + |Text(chs)|))
    requires JoinsNext(chs) && ReadsAs(s, p + 12, chs[2..], q)
    ensures ReadsAs(s, p, chs, q)
  {
    hide UnitLen, UnitOut;
    UnitIsHead(s, p, chs);
    OneTurn(s, p, 12, PairOut(Unit(chs[0]), Unit(chs[1])));
  }

  lemma TurnOverOne(s: bytes, p: nat, chs: seq<Ch>, q: nat)
    requires chs != [] && Wf(chs) && Occurs(s, p, Text(chs)) && Stops(At(s, p + |Text(chs)|))
    requires !JoinsNext(chs) && ReadsAs(s, p + |ChText(chs[0])|, chs[1..], q)
    ensures ReadsAs(s, p, chs, q)
  {
    hide UnitLen, UnitOut;
    UnitIsHead(s, p, chs);
    OneTurn(s, p, |ChText(chs[0])|, ChOut(chs[0]));
  }

  lemma {:induction false} NoTokens(s: bytes, p: nat, chs: seq<Ch>)
    requires |chs| == 0 && Occurs(s, p, Text(chs)) && Stops(At(s, p + |Text(chs)|))
    ensures ReadsAs(s, p, chs, p + |Text(chs)|)
  {
  }

  // The decoder reads any accepted token sequence as its meaning and stops right behind it.
  lemma {:induction false} DecodeTokens(s: bytes, p: nat, chs: seq<Ch>)
    requires Wf(chs) && Occurs(s, p, Text(chs)) && Stops(At(s, p + |Text(chs)|))
    ensures ReadsAs(s, p, chs, p + |Text(chs)|)
    decreases |chs|
  {
    hide Complete, Decode, ReadsAs, Stops, Text, Meaning, JoinsNext, ChText, WfCh, Occurs;
    if |chs| == 0 {
      NoTokens(s, p, chs);
      return;
    }
    if JoinsNext(chs) {
      BehindPair(s, p, chs);
      DecodeTokens(s, p + 12, chs[2..]);
      TurnOverPair(s, p, chs, p + |Text(chs)|);
    } else {
      ChAt(s, p, chs);
      DecodeTokens(s, p + |ChText(chs[0])|, chs[1..]);
      TurnOverOne(s, p, chs, p + |Text(chs)|);
    }
  }

  // Conversely the bytes up to the stop of a complete literal are an accepted token sequence.
  function Tokens(s: bytes, p: nat): (chs: seq<Ch>)
    requires p <= |s| && Complete(s, p)
    decreases |s| - p
  {
    if Stops(At(s, p)) then []
    else if s[p] != BACKSLASH then [Raw(s[p])] + Tokens(s, p + 1)
    else if s[p + 1] != LOWER_U then [Esc(s[p + 1])] + Tokens(s, p + 2)
    else [Uni(s[p + 2], s[p + 3], s[p + 4], s[p + 5])] + Tokens(s, p + 6)
  }

  lemma {:induction false} FirstToken(s: bytes, p: nat)
    requires p <= |s| && Complete(s, p) && !Stops(At(s, p))
    ensures var chs, n := Tokens(s, p), |ChText(Tokens(s, p)[0])|;
            && WfCh(chs[0]) && Occurs(s, p, ChText(chs[0])) && p + n <= |s| && Complete(s, p + n)
            && chs[1..] == Tokens(s, p + n)
  {
    OccursIsSlice(s, p, ChText(Tokens(s, p)[0]));
  }

  lemma {:induction false} TokensText(s: bytes, p: nat)
    requires p <= |s| && Complete(s, p)
    ensures Wf(Tokens(s, p)) && Occurs(s, p, Text(Tokens(s, p)))
    ensures Stops(At(s, p + |Text(Tokens(s, p))|))
    decreases |s| - p
  {
    if !Stops(At(s, p)) {
      var chs := Tokens(s, p);
      var w := ChText(chs[0]);
      FirstToken(s, p);
      hide Complete, Tokens, ChText, WfCh, Occurs;
      TokensText(s, p + |w|);
      OccursConcat(s, p, w, Text(chs[1..]));
    }
  }

  // What the escapes of section 7 of RFC 8259 stand for; a backslash before any other byte is
  // dropped.
  lemma EscapesDenote(c: byte)
    requires c != 0 && c != 117
    ensures Wf([Esc(c)]) && Meaning([Esc(c)]) == [if c == 98 then 8 else if c == 102 then 12 else if c == 110 then 10
                                                  else if c == 114 then 13 else if c == 116 then 9 else c]
  {
    assert [Esc(c)][1..] == [];
  }

  // A \u escape that stands alone gives the UTF-8 form of its code unit, and no bytes for zero and
  // for half of a surrogate pair.
  lemma UnitDenotes(h0: byte, h1: byte, h2: byte, h3: byte)
    requires IsHex(h0) && IsHex(h1) && IsHex(h2) && IsHex(h3)
    ensures var u, w := HexQuad(h0, h1, h2, h3), Meaning([Uni(h0, h1, h2, h3)]);
            if u == 0 || 0xD800 <= u <= 0xDFFF then w == [] else Utf8.Decode(w) == Some(u)
  {
    var chs := [Uni(h0, h1, h2, h3)];
    assert chs[1..] == [];
    Utf8.DecodeEncode(Unit(chs[0]));
  }

  // A first half swallows the \u escape behind it: with a second half it gives one code point of
  // the higher planes, with anything else no bytes at all.
  lemma PairDenotes(first: Ch, second: Ch)
    requires first.Uni? && second.Uni? && WfCh(first) && WfCh(second) && 0xD800 <= Unit(first) <= 0xDBFF
    ensures var w := Meaning([first, second]);
            if 0xDC00 <= Unit(second) <= 0xDFFF then
              && Utf8.Decode(w) == Some(Utf8.Join(Unit(first), Unit(second)))
              && 0x10000 <= Utf8.Join(Unit(first), Unit(second)) < 0x110000
            else w == []
    ensures Paired([first, second]) <==> 0xDC00 <= Unit(second) <= 0xDFFF
  {
    hide Utf8.Join, Utf8.Encode, Utf8.Decode;
    var chs := [first, second];
    assert chs[2..] == [] && JoinsNext(chs);
    var out := PairOut(Unit(first), Unit(second));
    assert Meaning(chs) == out by { assert Meaning([]) == [] && out + [] == out; }
    if Utf8.LowSurrogate(Unit(second)) {
      Utf8.JoinValue(Unit(first), Unit(second));
      Utf8.DecodeEncode(Utf8.Join(Unit(first), Unit(second)));
    }
  }

  // ---- What the standard says ----

  predicate Whole(ch: Ch)
    requires WfCh(ch)
  {
    ch.Uni? ==> !Utf8.HighSurrogate(Unit(ch)) && !Utf8.LowSurrogate(Unit(ch))
  }

  // Every surrogate half stands in a pair.
  predicate Paired(chs: seq<Ch>)
    requires Wf(chs)
  {
    if chs == [] then true
    else if JoinsNext(chs) then Utf8.LowSurrogate(Unit(chs[1])) && Paired(chs[2..])
    else Whole(chs[0]) && Paired(chs[1..])
  }

  // The UTF-8 form of the code points the literal denotes.
  function Standard(chs: seq<Ch>): bytes
    requires Wf(chs) && Paired(chs)
  {
    if chs == [] then []
    else if JoinsNext(chs) then
      Utf8.Encode(Utf8.PairCodePoint(Unit(chs[0]), Unit(chs[1]))) + Standard(chs[2..])
    else if chs[0].Uni? then Utf8.Encode(Unit(chs[0])) + Standard(chs[1..])
    else ChOut(chs[0]) + Standard(chs[1..])
  }

  // No \u0000, and no pair whose 20-bit value has bit 16 set.
  predicate Faithful(chs: seq<Ch>)
    requires Wf(chs) && Paired(chs)
  {
    if chs == [] then true
    else if JoinsNext(chs) then
      Utf8.PairValue(Unit(chs[0]), Unit(chs[1])) / 0x10000 % 2 == 0 && Faithful(chs[2..])
    else (chs[0].Uni? ==> Unit(chs[0]) != 0) && Faithful(chs[1..])
  }

  lemma EncodeInjective(c: nat, d: nat)
    requires c < 0x110000 && d < 0x110000 && Utf8.Encode(c) == Utf8.Encode(d)
    ensures c == d
  {
    Utf8.DecodeEncode(c);
    Utf8.DecodeEncode(d);
  }

  lemma {:induction false} MeaningNoLonger(chs: seq<Ch>)
    requires Wf(chs) && Paired(chs)
    ensures |Meaning(chs)| <= |Standard(chs)|
    decreases |chs|
  {
    if chs != [] {
      if JoinsNext(chs) {
        Utf8.JoinValue(Unit(chs[0]), Unit(chs[1]));
        MeaningNoLonger(chs[2..]);
      } else {
        MeaningNoLonger(chs[1..]);
      }
    }
  }

  lemma SplitEqual(a: bytes, b: bytes, c: bytes, d: bytes)
    requires a + b == c + d && |a| == |c|
    ensures a == c && b == d
  {
    assert a == (a + b)[..|a|] && c == (c + d)[..|c|];
    assert b == (a + b)[|a|..] && d == (c + d)[|c|..];
  }

  // The decoder stores what the standard denotes exactly for the faithful literals.
  lemma {:induction false} StandardIffFaithful(chs: seq<Ch>)
    requires Wf(chs) && Paired(chs)
    ensures Meaning(chs) == Standard(chs) <==> Faithful(chs)
    decreases |chs|
  {
    if chs != [] {
      if JoinsNext(chs) {
        PairStandard(chs);
      } else {
        StandardIffFaithful(chs[1..]);
        MeaningNoLonger(chs[1..]);
        if Meaning(chs) == Standard(chs) && chs[0].Uni? && Unit(chs[0]) != 0 {
          SplitEqual(ChOut(chs[0]), Meaning(chs[1..]), Utf8.Encode(Unit(chs[0])), Standard(chs[1..]));
        } else if Meaning(chs) == Standard(chs) && !chs[0].Uni? {
          SplitEqual(ChOut(chs[0]), Meaning(chs[1..]), ChOut(chs[0]), Standard(chs[1..]));
        }
      }
    }
  }

  lemma {:induction false} PairStandard(chs: seq<Ch>)
    requires Wf(chs) && Paired(chs) && chs != [] && JoinsNext(chs)
    ensures Meaning(chs) == Standard(chs) <==> Faithful(chs)
    decreases |chs|, 0
  {
    var u, u2 := Unit(chs[0]), Unit(chs[1]);
    StandardIffFaithful(chs[2..]);
    Utf8.JoinValue(u, u2);
    var made, meant := Utf8.Encode(Utf8.Join(u, u2)), Utf8.Encode(Utf8.PairCodePoint(u, u2));
    if Meaning(chs) == Standard(chs) {
      SplitEqual(made, Meaning(chs[2..]), meant, Standard(chs[2..]));
      EncodeInjective(Utf8.Join(u, u2), Utf8.PairCodePoint(u, u2));
    }
  }

  // The literal "\u0000" denotes the code point zero and is read as no byte at all.
  lemma NulIsDropped()
    ensures var chs := [Uni(48, 48, 48, 48)];
            && Rfc(chs) && Wf(chs) && Paired(chs) && !Faithful(chs) && Standard(chs) == [0] && Meaning(chs) == []
  {
    var chs := [Uni(48, 48, 48, 48)];
    assert chs[1..] == [];
    assert Unit(chs[0]) == 0 && !JoinsNext(chs);
  }

  // ---- The escaping printer ----

  function HexDigit(v: nat): (c: byte)
    requires v < 16
    ensures IsHex(c) && HexVal(c) == v
  {
    if v < 10 then 48 + v else 87 + v
  }

  predicate Plain(b: byte) {
    b > 31 && b != QUOTE && b != BACKSLASH
  }

  // How print_string_ptr writes one byte.
  function QuoteCh(b: byte): Ch {
    if Plain(b) then Raw(b)
    else if b == 92 then Esc(92) else if b == 34 then Esc(34)
    else if b == 8 then Esc(98) else if b == 12 then Esc(102) else if b == 10 then Esc(110)
    else if b == 13 then Esc(114) else if b == 9 then Esc(116)
    else Uni(48, 48, HexDigit(b / 16), HexDigit(b % 16))
  }

  function QuoteTokens(s: bytes): seq<Ch> {
    seq(|s|, i requires 0 <= i < |s| => QuoteCh(s[i]))
  }

  function QuoteBody(s: bytes): bytes {
    if s == [] then [] else ChText(QuoteCh(s[0])) + QuoteBody(s[1..])
  }

  // The text print_string_ptr produces.
  function Quote(s: bytes): bytes {
    [QUOTE] + QuoteBody(s) + [QUOTE]
  }

  // The counting pass: one byte, one more for a two-byte escape, five more for \u00xx.
  function CountCh(b: byte): nat {
    if b in [34, 92, 8, 12, 10, 13, 9] then 2 else if b < 32 then 6 else 1
  }

  function CountLen(s: bytes): nat {
    if s == [] then 0 else CountCh(s[0]) + CountLen(s[1..])
  }

  // The counting pass finds exactly the bytes the emitting pass writes.
  lemma {:induction false} CountIsExact(s: bytes)
    ensures CountLen(s) == |QuoteBody(s)|
  {
    if s != [] {
      CountIsExact(s[1..]);
    }
  }

  lemma {:induction false} QuoteIsTokens(s: bytes)
    requires NulFree(s)
    ensures Rfc(QuoteTokens(s)) && Wf(QuoteTokens(s))
    ensures Text(QuoteTokens(s)) == QuoteBody(s)
    ensures Meaning(QuoteTokens(s)) == s
  {
    hide QuoteCh, ChText, ChOut;
    if s != [] {
      QuoteIsTokens(s[1..]);
      var chs := QuoteTokens(s);
      assert chs[1..] == QuoteTokens(s[1..]);
      QuoteChMeaning(s[0]);
      assert chs == [chs[0]] + chs[1..];
      assert s == [s[0]] + s[1..];
    }
  }

  lemma QuoteChMeaning(b: byte)
    requires b != 0
    ensures RfcCh(QuoteCh(b)) && WfCh(QuoteCh(b)) && ChOut(QuoteCh(b)) == [b]
    ensures QuoteCh(b).Uni? ==> !Utf8.HighSurrogate(Unit(QuoteCh(b)))
  {
    assert b == b / 16 * 16 + b % 16;
  }

  // Decoding what the printer escaped gives the bytes back, with the cursor past the quote.
  lemma DecodeQuote(s: bytes, p: nat, t: bytes)
    requires NulFree(t) && Occurs(s, p, Quote(t))
    ensures Complete(s, p + 1) && Decode(s, p + 1) == t
    ensures AfterLiteral(s, p + 1) == p + |Quote(t)|
  {
    hide Complete, Decode, Text, Meaning, QuoteBody;
    QuoteIsTokens(t);
    OccursConcat(s, p, [QUOTE] + QuoteBody(t), [QUOTE]);
    OccursConcat(s, p, [QUOTE], QuoteBody(t));
    OccursAt(s, p + 1 + |QuoteBody(t)|, [QUOTE], 0);
    DecodeTokens(s, p + 1, QuoteTokens(t));
  }
}
