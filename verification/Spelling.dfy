// The texts of JSON byte by byte, in numbers: what the printer writes and what the parser takes,
// without the names and helpers that both share.
module Spelling {
  import opened Bytes
  import opened Json
  import opened Parse
  import opened Grammar
  import opened Derivations
  import Numbers
  import Rendering
  import RoundTrip
  import Strings
  import StringTokens

  // The words with sep between any two.
  function Joined(ws: seq<bytes>, sep: bytes): bytes {
    if |ws| == 0 then [] else if |ws| == 1 then ws[0] else ws[0] + (sep + Joined(ws[1..], sep))
  }

  // ---- What is printed ----

  // One byte between the quotes.
  function Escaped(b: byte): bytes {
    match b
    case 34 => [92, 34]
    case 92 => [92, 92]
    case 8 => [92, 98]
    case 9 => [92, 116]
    case 10 => [92, 110]
    case 12 => [92, 102]
    case 13 => [92, 114]
    case _ =>
      if b < 32 then [92, 117, 48, 48, 48 + b / 16, if b % 16 < 10 then 48 + b % 16 else 87 + b % 16] else [b]
  }

  function EscapedAll(s: bytes): seq<bytes> {
    seq(|s|, i requires 0 <= i < |s| => Escaped(s[i]))
  }

  function Quoted(t: Option<bytes>): bytes {
    if t.None? then [] else [34] + Joined(EscapedAll(t.value), []) + [34]
  }

  function Indent(depth: nat, fmt: bool): bytes {
    if fmt then seq(depth, _ => 9) else []
  }

  function ItemTexts(items: seq<Value>, depth: nat, fmt: bool): seq<bytes> {
    seq(|items|, i requires 0 <= i < |items| => Print(items[i], depth, fmt))
  }

  function MemberBytes(m: Member, depth: nat, fmt: bool): bytes {
    Indent(depth, fmt) + Quoted(m.name) + (if fmt then [58, 9] else [58]) + Print(m.value, depth, fmt)
  }

  function MemberTexts(ms: seq<Member>, depth: nat, fmt: bool): seq<bytes> {
    seq(|ms|, i requires 0 <= i < |ms| => MemberBytes(ms[i], depth, fmt))
  }

  // null, false and true; a text in quotes; the entries of a list in brackets or braces, a comma
  // between any two, every member of an object on a line of its own when formatted.
  lemma {:induction false} PrintSpelled(v: Value, depth: nat, fmt: bool)
    ensures Print(v, depth, fmt) ==
      match v
      case Null => [110, 117, 108, 108]
      case False => [102, 97, 108, 115, 101]
      case True => [116, 114, 117, 101]
      case Num(r) => Numbers.Text(Rendering.FieldsTok(Numbers.IntOf(r), r))
      case Str(t) => Quoted(t)
      case Arr(items) =>
        [91] + Joined(ItemTexts(items, depth + 1, fmt), if fmt then [44, 32] else [44]) + [93]
      case Obj(ms) =>
        (if fmt then [123, 10] else [123])
          + Joined(MemberTexts(ms, depth + 1, fmt), if fmt then [44, 10] else [44])
          + ((if fmt && |ms| > 0 then [10] else []) + Indent(depth, fmt) + [125])
  {
    match v
    case Str(Some(s)) => QuoteSpelled(s);
    case Arr(items) => ItemsSpelled(items, depth + 1, fmt);
    case Obj(ms) =>
      MembersSpelled(ms, depth + 1, fmt);
      TabsSpelled(depth);
    case _ =>
  }

  lemma {:induction false} QuoteSpelled(s: bytes)
    ensures StringTokens.QuoteBody(s) == Joined(EscapedAll(s), [])
  {
    if |s| > 0 {
      QuoteSpelled(s[1..]);
      assert EscapedAll(s)[1..] == EscapedAll(s[1..]);
      EscapeSpelled(s[0]);
    }
  }

  lemma EscapeSpelled(b: byte)
    ensures StringTokens.ChText(StringTokens.QuoteCh(b)) == Escaped(b)
  {
  }

  lemma {:induction false} ItemsSpelled(items: seq<Value>, depth: nat, fmt: bool)
    ensures PrintItems(items, depth, fmt) == Joined(ItemTexts(items, depth, fmt), if fmt then [44, 32] else [44])
    decreases |items|
  {
    hide Print;
    if |items| > 1 {
      ItemsSpelled(items[1..], depth, fmt);
      assert ItemTexts(items, depth, fmt)[1..] == ItemTexts(items[1..], depth, fmt);
    }
  }

  lemma {:induction false} TabsSpelled(n: nat)
    ensures Tabs(n) == Indent(n, true)
  {
    if n > 0 {
      TabsSpelled(n - 1);
    }
  }

  lemma {:induction false} MembersSpelled(ms: seq<Member>, depth: nat, fmt: bool)
    ensures PrintMembers(ms, depth, fmt)
         == Joined(MemberTexts(ms, depth, fmt), if fmt then [44, 10] else [44]) + if fmt && |ms| > 0 then [10] else []
    decreases |ms|
  {
    hide PrintMember, MemberBytes;
    if |ms| > 0 {
      MembersSpelled(ms[1..], depth, fmt);
      MemberSpelled(ms[0], depth, fmt);
      assert MemberTexts(ms, depth, fmt)[1..] == MemberTexts(ms[1..], depth, fmt);
      hide MemberTexts;
      var sep := if fmt then [44, 10] else [44];
      assert MemberTail(|ms| == 1, fmt) == if |ms| > 1 then sep else if fmt then [10] else [];
    }
  }

  lemma {:induction false} MemberSpelled(m: Member, depth: nat, fmt: bool)
    ensures PrintMember(m, depth, fmt) == MemberBytes(m, depth, fmt)
  {
    hide Print;
    TabsSpelled(depth);
    if m.name.Some? {
      QuoteSpelled(m.name.value);
    }
  }

  // ---- What is read ----

  function ChTexts(chs: seq<StringTokens.Ch>): seq<bytes> {
    seq(|chs|, i requires 0 <= i < |chs| =>
      match chs[i]
      case Raw(b) => [b]
      case Esc(c) => [92, c]
      case Uni(a, b, c, d) => [92, 117, a, b, c, d])
  }

  function ExponentBytes(exp: Numbers.Exponent): bytes {
    match exp
    case NoExp => []
    case Exp(mark, Unsigned, digits) => [mark] + digits
    case Exp(mark, Plus, digits) => [mark, 43] + digits
    case Exp(mark, Minus, digits) => [mark, 45] + digits
  }

  function NumberBytes(tok: Numbers.NumTok): bytes {
    (if tok.neg then [45] else []) + (if tok.zero then [48] else []) + tok.whole
      + (if |tok.frac| > 0 then [46] + tok.frac else []) + ExponentBytes(tok.exp)
  }

  function InQuotes(chs: seq<StringTokens.Ch>): bytes {
    [34] + Joined(ChTexts(chs), []) + [34]
  }

  function Spaced(e: Elem): bytes {
    e.pre + (Text(e.value) + e.post)
  }

  function ElemTexts(es: seq<Elem>): seq<bytes> {
    seq(|es|, i requires 0 <= i < |es| => Spaced(es[i]))
  }

  function MemBytes(m: Mem): bytes {
    m.pre + (InQuotes(m.name) + (m.mid + [58])) + Spaced(m.elem)
  }

  function MemTexts(ms: seq<Mem>): seq<bytes> {
    seq(|ms|, i requires 0 <= i < |ms| => MemBytes(ms[i]))
  }

  // The text a derivation derives. By AcceptsExactly it is what the parser takes.
  lemma {:induction false} TextSpelled(t: Tree)
    ensures Text(t) ==
      match t
      case GNull => [110, 117, 108, 108]
      case GFalse => [102, 97, 108, 115, 101]
      case GTrue => [116, 114, 117, 101]
      case GNum(tok) => NumberBytes(tok)
      case GStr(chs) => InQuotes(chs)
      case GArr(es, ws) => [91] + (if |es| == 0 then ws else Joined(ElemTexts(es), [44])) + [93]
      case GObj(ms, ws) => [123] + (if |ms| == 0 then ws else Joined(MemTexts(ms), [44])) + [125]
  {
    hide ElemsText, MemsText, StringTokens.Text, Joined, ChTexts, ElemTexts, MemTexts, Numbers.Text, NumberBytes;
    match t
    case GNum(tok) => NumberSpelled(tok);
    case GStr(chs) => CharsSpelled(chs);
    case GArr(es, _) => ElemsSpelled(es);
    case GObj(ms, _) => MemsSpelled(ms);
    case _ =>
  }

  lemma NumberSpelled(tok: Numbers.NumTok)
    ensures Numbers.Text(tok) == NumberBytes(tok)
  {
  }

  lemma {:induction false} CharsSpelled(chs: seq<StringTokens.Ch>)
    ensures StringTokens.Text(chs) == Joined(ChTexts(chs), [])
  {
    if |chs| > 0 {
      CharsSpelled(chs[1..]);
      assert ChTexts(chs)[1..] == ChTexts(chs[1..]);
    }
  }

  lemma {:induction false} ElemsSpelled(es: seq<Elem>)
    ensures ElemsText(es) == Joined(ElemTexts(es), [44])
    decreases |es|
  {
    hide Text;
    if |es| > 1 {
      ElemsSpelled(es[1..]);
      assert ElemTexts(es)[1..] == ElemTexts(es[1..]);
    }
  }

  lemma {:induction false} MemsSpelled(ms: seq<Mem>)
    ensures MemsText(ms) == Joined(MemTexts(ms), [44])
    decreases |ms|
  {
    if |ms| > 0 {
      MemSpelled(ms[0]);
    }
    hide Text, MemText, MemBytes;
    if |ms| > 1 {
      MemsSpelled(ms[1..]);
      assert MemTexts(ms)[1..] == MemTexts(ms[1..]);
    }
  }

  lemma {:induction false} MemSpelled(m: Mem)
    ensures MemText(m) == MemBytes(m)
  {
    hide Text;
    CharsSpelled(m.name);
  }

  // ---- The grammar of RFC 8259, sections 2, 6 and 7 ----

  predicate Digits(w: bytes) {
    |w| > 0 && forall k :: 0 <= k < |w| ==> 48 <= w[k] <= 57
  }

  predicate IntPart(w: bytes) {
    w == [48] || (Digits(w) && w[0] != 48)
  }

  predicate FracPart(w: bytes) {
    |w| == 0 || (w[0] == 46 && Digits(w[1..]))
  }

  predicate ExpPart(w: bytes) {
    |w| == 0 || ((w[0] == 101 || w[0] == 69)
                 && (Digits(w[1..]) || (|w| > 1 && (w[1] == 43 || w[1] == 45) && Digits(w[2..]))))
  }

  ghost predicate IsNumber(s: bytes) {
    exists sign: bytes, whole, frac, exp :: IsNumberOf(s, sign, whole, frac, exp)
  }

  predicate IsNumberOf(s: bytes, sign: bytes, whole: bytes, frac: bytes, exp: bytes) {
    && s == sign + whole + frac + exp
    && (sign == [] || sign == [45]) && IntPart(whole) && FracPart(frac) && ExpPart(exp)
  }

  // The tokens called the standard's spell its numbers, all of them and nothing else.
  lemma NumberIff(s: bytes)
    ensures (exists tok :: Numbers.Rfc(tok) && Numbers.Text(tok) == s) <==> IsNumber(s)
  {
    hide IntPart, FracPart, ExpPart, Numbers.Rfc, Numbers.Text;
    if tok :| Numbers.Rfc(tok) && Numbers.Text(tok) == s {
      TokenIsNumber(tok);
    }
    if sign: bytes, whole, frac, exp :| IsNumberOf(s, sign, whole, frac, exp) {
      var tok := NumberIsToken(s, sign, whole, frac, exp);
    }
  }

  lemma TokenIsNumber(tok: Numbers.NumTok)
    requires Numbers.Rfc(tok)
    ensures IsNumber(Numbers.Text(tok))
  {
    var sign, frac, exp := Numbers.SignText(tok.neg), Numbers.FracText(tok.frac), Numbers.ExpText(tok.exp);
    var whole := Numbers.ZeroText(tok.zero) + tok.whole;
    assert FracPart(frac) by { assert |tok.frac| > 0 ==> frac[1..] == tok.frac; }
    ExpIsPart(tok.exp);
    hide ExpPart, Numbers.ExpText;
    assert Numbers.Text(tok) == sign + whole + frac + exp;
    assert IsNumberOf(Numbers.Text(tok), sign, whole, frac, exp);
  }

  lemma ExpIsPart(exp: Numbers.Exponent)
    requires Numbers.WfExp(exp) && (exp.Exp? ==> |exp.digits| > 0)
    ensures ExpPart(Numbers.ExpText(exp))
  {
    if exp.Exp? {
      var w := Numbers.ExpText(exp);
      assert if exp.sign.Unsigned? then w[1..] == exp.digits else w[2..] == exp.digits;
    }
  }

  lemma PartIsExp(w: bytes) returns (exp: Numbers.Exponent)
    requires ExpPart(w)
    ensures Numbers.WfExp(exp) && (exp.Exp? ==> |exp.digits| > 0) && Numbers.ExpText(exp) == w
  {
    if |w| == 0 {
      exp := Numbers.NoExp;
    } else if Digits(w[1..]) {
      exp := Numbers.Exp(w[0], Numbers.Unsigned, w[1..]);
    } else {
      exp := Numbers.Exp(w[0], if w[1] == 43 then Numbers.Plus else Numbers.Minus, w[2..]);
    }
  }

  lemma NumberIsToken(s: bytes, sign: bytes, whole: bytes, frac: bytes, exp: bytes) returns (tok: Numbers.NumTok)
    requires IsNumberOf(s, sign, whole, frac, exp)
    ensures Numbers.Rfc(tok) && Numbers.Text(tok) == s
  {
    var e := PartIsExp(exp);
    hide ExpPart, Numbers.ExpText, Numbers.WfExp;
    var body := if whole == [48] then [] else whole;
    var dec := if |frac| > 0 then frac[1..] else [];
    PartsRead(whole, body, frac, dec);
    hide IntPart, FracPart, Digits;
    tok := Numbers.NumTok(|sign| > 0, whole == [48], body, dec, e);
    assert Numbers.Text(tok) == sign + Numbers.ZeroText(tok.zero) + tok.whole + frac + exp;
    assert sign + Numbers.ZeroText(tok.zero) + tok.whole == sign + whole;
  }

  lemma PartsRead(whole: bytes, body: bytes, frac: bytes, dec: bytes)
    requires IntPart(whole) && body == (if whole == [48] then [] else whole)
    requires FracPart(frac) && dec == (if |frac| > 0 then frac[1..] else [])
    ensures Numbers.AllDigits(body) && (|body| > 0 ==> body[0] != 48) && ((whole == [48]) <==> |body| == 0)
    ensures Numbers.ZeroText(whole == [48]) + body == whole
    ensures Numbers.AllDigits(dec) && Numbers.FracText(dec) == frac
  {
  }

  // The same for the characters of a literal.
  lemma CharacterIff(w: bytes)
    ensures (exists ch :: StringTokens.RfcCh(ch) && StringTokens.ChText(ch) == w) <==>
      || (|w| == 1 && 32 <= w[0] && w[0] != 34 && w[0] != 92)
      || (|w| == 2 && w[0] == 92 && (w[1] == 34 || w[1] == 92 || w[1] == 47 || w[1] == 98 || w[1] == 102
                                     || w[1] == 110 || w[1] == 114 || w[1] == 116))
      || (|w| == 6 && w[0] == 92 && w[1] == 117 && forall k :: 2 <= k < 6 ==>
            48 <= w[k] <= 57 || 65 <= w[k] <= 70 || 97 <= w[k] <= 102)
  {
    if |w| == 1 && 32 <= w[0] && w[0] != 34 && w[0] != 92 {
      assert StringTokens.ChText(StringTokens.Raw(w[0])) == w;
    } else if |w| == 2 && w[0] == 92 {
      assert StringTokens.ChText(StringTokens.Esc(w[1])) == w;
    } else if |w| == 6 && w[0] == 92 && w[1] == 117 {
      assert StringTokens.ChText(StringTokens.Uni(w[2], w[3], w[4], w[5])) == w;
    }
  }

  // The standard's blanks are space, tab, line feed and carriage return.
  lemma BlankIff(w: bytes)
    ensures RoundTrip.RfcBlank(w) <==> forall b :: b in w ==> b == 32 || b == 9 || b == 10 || b == 13
  {
    assert forall k :: 0 <= k < |w| ==> w[k] in w;
  }

  // The blanks the parser passes over are the bytes from 1 to 32.
  lemma {:induction false} SkipSpelled(s: bytes, i: nat)
    requires i <= |s|
    ensures var j := Skip(s, i);
            && i <= j <= |s| && (forall k :: i <= k < j ==> 1 <= s[k] <= 32)
            && (j < |s| ==> s[j] == 0 || s[j] > 32)
  {
  }

  // What an accepted value begins with, and what it ends with.
  lemma {:induction false} AcceptedSpelled(s: bytes, i: nat)
    requires i <= |s| && ParseValue(s, i).Ok?
    ensures var v, j := ParseValue(s, i).v, ParseValue(s, i).pos;
            && i < j <= |s|
            && (v.Null? <==> s[i] == 110) && (v.Null? ==> s[i..j] == [110, 117, 108, 108])
            && (v.False? <==> s[i] == 102) && (v.False? ==> s[i..j] == [102, 97, 108, 115, 101])
            && (v.True? <==> s[i] == 116) && (v.True? ==> s[i..j] == [116, 114, 117, 101])
            && (v.Num? <==> s[i] == 45 || 48 <= s[i] <= 57) && (v.Str? <==> s[i] == 34)
            && (v.Arr? <==> s[i] == 91) && (v.Arr? ==> s[j - 1] == 93)
            && (v.Obj? <==> s[i] == 123) && (v.Obj? ==> s[j - 1] == 125)
  {
    hide Numbers.Scan, Numbers.Value, Strings.Decode, Strings.Complete, Strings.AfterLiteral, ParseElems, ParseMembers,
         Occurs;
    WordSpelled(s, i, NULL_WORD);
    WordSpelled(s, i, FALSE_WORD);
    WordSpelled(s, i, TRUE_WORD);
    if At(s, i) == 91 && At(s, Skip(s, i + 1)) != 93 {
      ElemsClose(s, Skip(s, i + 1), []);
    } else if At(s, i) == 123 && At(s, Skip(s, i + 1)) != 125 {
      MembersClose(s, Skip(s, i + 1), []);
    }
  }

  lemma WordSpelled(s: bytes, i: nat, word: bytes)
    requires i <= |s| && |word| > 0
    ensures Occurs(s, i, word) ==> i + |word| <= |s| && s[i] == word[0] && s[i..i + |word|] == word
  {
    OccursIsSlice(s, i, word);
  }

  lemma {:induction false} ElemsClose(s: bytes, k: nat, acc: seq<Value>)
    requires k <= |s| && ParseElems(s, k, acc).Ok?
    ensures var r := ParseElems(s, k, acc); r.v.Arr? && k < r.pos && s[r.pos - 1] == 93
    decreases |s| - k
  {
    hide ParseValue;
    var e := ParseValue(s, Skip(s, k));
    var j := Skip(s, e.pos);
    if At(s, j) == 44 {
      ElemsClose(s, j + 1, acc + [e.v]);
    }
  }

  lemma {:induction false} MembersClose(s: bytes, k: nat, acc: seq<Member>)
    requires k <= |s| && ParseMembers(s, k, acc).Ok?
    ensures var r := ParseMembers(s, k, acc); r.v.Obj? && k < r.pos && s[r.pos - 1] == 125
    decreases |s| - k
  {
    hide ParseValue, ReadName;
    var n := ReadName(s, k);
    var e := ParseValue(s, Skip(s, n.next));
    var j := Skip(s, e.pos);
    if At(s, j) == 44 {
      MembersClose(s, j + 1, acc + [Member(Some(n.name), e.v)]);
    }
  }

  // ---- Two documents ----

  lemma {:induction false} OneDigitTok(d: byte)
    requires 49 <= d <= 57
    ensures var tok := Numbers.NumTok(false, false, [d], [], Numbers.NoExp);
            Numbers.Wf(tok) && Numbers.Text(tok) == [d] && Numbers.Value(tok) == (d - 48) as real
  {
    assert [d] + [] == [d];
    assert Numbers.NatOf([d]) == d - 48;
    assert Numbers.Pow10(0) == 1.0;
  }

  function DigitElem(d: byte): Elem {
    Elem([], GNum(Numbers.NumTok(false, false, [d], [], Numbers.NoExp)), [])
  }

  // A text that is the text of one derivation and nothing else.
  lemma {:induction false} AloneParsed(s: bytes, t: Tree)
    requires Wf(t) && Text(t) == s && !t.GNum?
    ensures ParseText(s) == Ok(Meaning(t), |s|)
  {
    hide ParseValue, Text, Wf, Meaning;
    FirstByte(t);
    OccursIsSlice(s, 0, s);
    assert s[0..|s|] == s;
    DerivedIsParsed(s, 0, t, |s|);
  }

  // The text [1,2].
  lemma {:induction false} TwoNumbers()
    ensures ParseText([91, 49, 44, 50, 93]) == Ok(Arr([Num(1.0), Num(2.0)]), 5)
  {
    var es := [DigitElem(49), DigitElem(50)];
    hide ParseText, ElemsText, Text, Meaning, Wf, Numbers.Text, Numbers.Wf, Numbers.Value;
    TwoDigitsText(es);
    TwoDigitsMeaning(es);
    AloneParsed([91, 49, 44, 50, 93], GArr(es, []));
  }

  lemma {:induction false} TwoDigitsText(es: seq<Elem>)
    requires es == [DigitElem(49), DigitElem(50)]
    ensures Text(GArr(es, [])) == [91, 49, 44, 50, 93]
  {
    DigitSpaced(49);
    DigitSpaced(50);
    TextSpelled(GArr(es, []));
    hide Text, Spaced, DigitElem;
    assert ElemTexts(es) == [[49], [50]];
    hide ElemTexts;
    JoinedFew([49], [50], [44]);
  }

  lemma {:induction false} DigitSpaced(d: byte)
    requires 49 <= d <= 57
    ensures Spaced(DigitElem(d)) == [d]
  {
    OneDigitTok(d);
    hide Numbers.Text;
  }

  lemma JoinedFew(a: bytes, b: bytes, sep: bytes)
    ensures Joined([a], sep) == a && Joined([a, b], sep) == a + (sep + b)
  {
    assert [a, b][1..] == [b];
  }

  lemma {:induction false} TwoDigitsMeaning(es: seq<Elem>)
    requires es == [DigitElem(49), DigitElem(50)]
    ensures Wf(GArr(es, [])) && Meaning(GArr(es, [])) == Arr([Num(1.0), Num(2.0)])
  {
    OneDigitTok(49);
    OneDigitTok(50);
    hide Numbers.Value, Numbers.Wf;
    assert es[1..] == [DigitElem(50)] && es[1..][1..] == [];
    assert ElemMeanings(es[1..]) == [Num(2.0)] by { assert ElemMeaning(es[1..][0]) == Num(2.0); }
    assert ElemMeaning(es[0]) == Num(1.0);
  }

  // The text {"k":null}, with blanks around the colon.
  lemma {:induction false} OneMember()
    ensures ParseText([123, 34, 107, 34, 32, 58, 9, 110, 117, 108, 108, 125])
         == Ok(Obj([Member(Some([107]), Null)]), 12)
  {
    var m := Mem([], [StringTokens.Raw(107)], [32], Elem([9], GNull, []));
    hide ParseText, MemsText, Text, Meaning, Wf;
    MemberText(m);
    MemberMeans(m);
    AloneParsed([123, 34, 107, 34, 32, 58, 9, 110, 117, 108, 108, 125], GObj([m], []));
  }

  lemma {:induction false} MemberText(m: Mem)
    requires m == Mem([], [StringTokens.Raw(107)], [32], Elem([9], GNull, []))
    ensures Text(GObj([m], [])) == [123, 34, 107, 34, 32, 58, 9, 110, 117, 108, 108, 125]
  {
    TextSpelled(GObj([m], []));
    MemberBytesOf(m);
    hide Text, MemBytes;
    var w := [34, 107, 34, 32, 58, 9, 110, 117, 108, 108];
    assert MemTexts([m]) == [w];
    hide MemTexts;
    JoinedFew(w, w, [44]);
  }

  lemma {:induction false} MemberBytesOf(m: Mem)
    requires m == Mem([], [StringTokens.Raw(107)], [32], Elem([9], GNull, []))
    ensures MemBytes(m) == [34, 107, 34, 32, 58, 9, 110, 117, 108, 108]
  {
    assert Spaced(m.elem) == [9, 110, 117, 108, 108];
    assert ChTexts(m.name) == [[107]];
    hide Spaced, ChTexts, Joined;
    JoinedFew([107], [], []);
    assert InQuotes(m.name) == [34, 107, 34];
  }

  lemma {:induction false} MemberMeans(m: Mem)
    requires m == Mem([], [StringTokens.Raw(107)], [32], Elem([9], GNull, []))
    ensures Wf(GObj([m], [])) && Meaning(GObj([m], [])) == Obj([Member(Some([107]), Null)])
  {
    assert [m][1..] == [] && m.name[1..] == [];
    assert StringTokens.Meaning(m.name) == [107];
    assert MemMeaning(m) == Member(Some([107]), Null);
    assert MemMeanings([m]) == [MemMeaning(m)];
  }
}
