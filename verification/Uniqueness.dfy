// A text has one derivation at most, so what the parser accepts is a text of the standard
// exactly when that derivation is one of the standard's.
module Uniqueness {
  import opened Bytes
  import opened Json
  import opened Parse
  import opened Grammar
  import opened Derivations
  import opened RoundTrip
  import Numbers
  import Strings
  import StringTokens

  lemma {:induction false} SameWord(s: bytes, i: nat, a: bytes, b: bytes)
    requires Occurs(s, i, a) && Occurs(s, i, b) && |a| == |b|
    ensures a == b
  {
    OccursIsSlice(s, i, a);
    OccursIsSlice(s, i, b);
  }

  lemma {:induction false} TokensUnique(s: bytes, p: nat, chs: seq<StringTokens.Ch>)
    requires StringTokens.Wf(chs) && Occurs(s, p, StringTokens.Text(chs))
    requires Strings.Stops(At(s, p + |StringTokens.Text(chs)|))
    ensures Strings.Complete(s, p) && StringTokens.Tokens(s, p) == chs
    decreases |chs|
  {
    StringTokens.TokensComplete(s, p, chs);
    if |chs| > 0 {
      HeadToken(s, p, chs);
      hide StringTokens.Tokens, StringTokens.ChText, StringTokens.WfCh, Strings.Complete, Occurs;
      TokensUnique(s, p + |StringTokens.ChText(chs[0])|, chs[1..]);
      assert chs == [chs[0]] + chs[1..];
    }
  }

  lemma {:induction false} HeadToken(s: bytes, p: nat, chs: seq<StringTokens.Ch>)
    requires |chs| > 0 && StringTokens.Wf(chs) && Occurs(s, p, StringTokens.Text(chs)) && Strings.Complete(s, p)
    ensures var n := |StringTokens.ChText(chs[0])|;
            && p + n <= |s| && Strings.Complete(s, p + n)
               && StringTokens.Tokens(s, p) == [chs[0]] + StringTokens.Tokens(s, p + n)
            && Occurs(s, p + n, StringTokens.Text(chs[1..]))
               && |StringTokens.Text(chs)| == n + |StringTokens.Text(chs[1..])|
  {
    StringTokens.ChAt(s, p, chs);
    if chs[0].Uni? {
      StringTokens.UniAt(s, p, chs[0]);
      UniBytes(s, p, chs[0]);
    }
  }

  lemma UniBytes(s: bytes, p: nat, ch: StringTokens.Ch)
    requires ch.Uni? && StringTokens.StandsAt(s, p, ch)
    ensures p + 6 <= |s| && ch == StringTokens.Uni(s[p + 2], s[p + 3], s[p + 4], s[p + 5])
  {
    match ch
    case Uni(a, b, c, d) =>
      OccursIsSlice(s, p, [Strings.BACKSLASH, Strings.LOWER_U, a, b, c, d]);
      var w := s[p..p + 6];
      assert w[2] == a && w[3] == b && w[4] == c && w[5] == d;
  }

  lemma {:induction false} LiteralUnique(s: bytes, i: nat, a: seq<StringTokens.Ch>, b: seq<StringTokens.Ch>)
    requires StringTokens.Wf(a) && StringTokens.Wf(b) && Occurs(s, i, Literal(a)) && Occurs(s, i, Literal(b))
    ensures a == b
  {
    hide StringTokens.Wf, StringTokens.Text, Strings.Complete, StringTokens.Tokens;
    OccursBetween(s, i, Strings.QUOTE, StringTokens.Text(a), Strings.QUOTE);
    OccursBetween(s, i, Strings.QUOTE, StringTokens.Text(b), Strings.QUOTE);
    TokensUnique(s, i + 1, a);
    TokensUnique(s, i + 1, b);
  }

  // Two derivations of what stands at one place are the same.
  lemma {:induction false} Unique(s: bytes, i: nat, t: Tree, u: Tree)
    requires Wf(t) && Occurs(s, i, Text(t)) && Follow(t, s, i + |Text(t)|)
    requires Wf(u) && Occurs(s, i, Text(u)) && Follow(u, s, i + |Text(u)|)
    ensures t == u
    decreases t
  {
    hide ParseValue, Text, Wf, Follow, Meaning;
    ValueComplete(s, i, t);
    ValueComplete(s, i, u);
    SameKind(t, u);
    match t
    case GNum(_) => NumberUnique(s, i, t, u);
    case GStr(_) => StringUnique(s, i, t, u);
    case GArr(_, _) => ArrayUnique(s, i, t, u);
    case GObj(_, _) => ObjectUnique(s, i, t, u);
    case _ =>
  }

  // The value tells what kind of derivation it comes from, and how many parts it has.
  lemma {:induction false} SameKind(t: Tree, u: Tree)
    requires Wf(t) && Wf(u) && Meaning(t) == Meaning(u)
    ensures (t.GNull? ==> u.GNull?) && (t.GFalse? ==> u.GFalse?) && (t.GTrue? ==> u.GTrue?) && (t.GNum? ==> u.GNum?)
    ensures (t.GStr? ==> u.GStr?) && (t.GArr? ==> u.GArr? && |t.elems| == |u.elems|)
      && (t.GObj? ==> u.GObj? && |t.mems| == |u.mems|)
  {
  }

  lemma {:induction false} NumberUnique(s: bytes, i: nat, t: Tree, u: Tree)
    requires t.GNum? && Wf(t) && Occurs(s, i, Text(t)) && Follow(t, s, i + |Text(t)|)
    requires u.GNum? && Wf(u) && Occurs(s, i, Text(u)) && Follow(u, s, i + |Text(u)|)
    ensures t == u
  {
    hide Numbers.Text, Numbers.Wf, Numbers.Ends, Numbers.Scan, Occurs;
    Numbers.ScanComplete(s, i, t.tok);
    Numbers.ScanComplete(s, i, u.tok);
  }

  lemma {:induction false} StringUnique(s: bytes, i: nat, t: Tree, u: Tree)
    requires t.GStr? && Wf(t) && Occurs(s, i, Text(t)) && u.GStr? && Wf(u) && Occurs(s, i, Text(u))
    ensures t == u
  {
    hide Literal, StringTokens.Wf, Occurs;
    LiteralUnique(s, i, t.chs, u.chs);
  }

  lemma {:induction false} ArrayUnique(s: bytes, i: nat, t: Tree, u: Tree)
    requires t.GArr? && Wf(t) && Occurs(s, i, Text(t)) && u.GArr? && Wf(u) && Occurs(s, i, Text(u))
    requires |t.elems| == |u.elems| && |Text(t)| == |Text(u)|
    ensures t == u
    decreases t, 0
  {
    hide ElemsText, WfElem, Occurs;
    if |t.elems| == 0 {
      OccursBetween(s, i, LBRACKET, t.ws, RBRACKET);
      OccursBetween(s, i, LBRACKET, u.ws, RBRACKET);
      SameWord(s, i + 1, t.ws, u.ws);
    } else {
      OccursBetween(s, i, LBRACKET, ElemsText(t.elems), RBRACKET);
      OccursBetween(s, i, LBRACKET, ElemsText(u.elems), RBRACKET);
      ElemsUnique(s, i + 1, t.elems, u.elems);
    }
  }

  lemma {:induction false} ObjectUnique(s: bytes, i: nat, t: Tree, u: Tree)
    requires t.GObj? && Wf(t) && Occurs(s, i, Text(t)) && u.GObj? && Wf(u) && Occurs(s, i, Text(u))
    requires |t.mems| == |u.mems| && |Text(t)| == |Text(u)|
    ensures t == u
    decreases t, 0
  {
    hide MemsText, WfMem, Occurs;
    if |t.mems| == 0 {
      OccursBetween(s, i, LBRACE, t.ws, RBRACE);
      OccursBetween(s, i, LBRACE, u.ws, RBRACE);
      SameWord(s, i + 1, t.ws, u.ws);
    } else {
      OccursBetween(s, i, LBRACE, MemsText(t.mems), RBRACE);
      OccursBetween(s, i, LBRACE, MemsText(u.mems), RBRACE);
      MemsUnique(s, i + 1, t.mems, u.mems);
    }
  }

  lemma {:induction false} ElemsUnique(s: bytes, k: nat, es: seq<Elem>, fs: seq<Elem>)
    requires |es| == |fs| > 0 && (forall n :: 0 <= n < |es| ==> WfElem(es[n]) && WfElem(fs[n]))
    requires Occurs(s, k, ElemsText(es)) && At(s, k + |ElemsText(es)|) == RBRACKET
    requires Occurs(s, k, ElemsText(fs)) && At(s, k + |ElemsText(fs)|) == RBRACKET
    ensures es == fs
    decreases es, 1
  {
    hide ElemText, ElemsText, WfElem;
    ElemsHead(s, k, es);
    ElemsHead(s, k, fs);
    ElemUnique(s, k, es[0], fs[0]);
    if |es| > 1 {
      ElemsUnique(s, k + |ElemText(es[0])| + 1, es[1..], fs[1..]);
    }
    assert es == [es[0]] + es[1..] && fs == [fs[0]] + fs[1..];
  }

  lemma {:induction false} ElemUnique(s: bytes, k: nat, e: Elem, f: Elem)
    requires WfElem(e) && Occurs(s, k, ElemText(e)) && Separator(At(s, k + |ElemText(e)|))
    requires WfElem(f) && Occurs(s, k, ElemText(f)) && Separator(At(s, k + |ElemText(f)|))
    ensures e == f
    decreases e, 0
  {
    hide ParseValue, Text, Wf, Follow, ElemText;
    BlanksAround(s, k, e);
    BlanksAround(s, k, f);
    ElemWords(s, k, e);
    ElemWords(s, k, f);
    SameWord(s, k, e.pre, f.pre);
    Unique(s, k + |e.pre|, e.value, f.value);
    SameWord(s, k + |e.pre| + |Text(e.value)|, e.post, f.post);
  }

  lemma {:induction false} ElemWords(s: bytes, k: nat, e: Elem)
    requires WfElem(e) && Occurs(s, k, ElemText(e)) && Separator(At(s, k + |ElemText(e)|))
    ensures var q := k + |e.pre|;
            && Occurs(s, k, e.pre) && Occurs(s, q, Text(e.value)) && Occurs(s, q + |Text(e.value)|, e.post)
            && Wf(e.value) && Follow(e.value, s, q + |Text(e.value)|)
            && |ElemText(e)| == |e.pre| + |Text(e.value)| + |e.post|
  {
    hide Text, Wf;
    BlanksAround(s, k, e);
    OccursConcat(s, k, e.pre, Text(e.value) + e.post);
    OccursConcat(s, k + |e.pre|, Text(e.value), e.post);
  }

  lemma {:induction false} MemsUnique(s: bytes, k: nat, ms: seq<Mem>, ns: seq<Mem>)
    requires |ms| == |ns| > 0 && (forall n :: 0 <= n < |ms| ==> WfMem(ms[n]) && WfMem(ns[n]))
    requires Occurs(s, k, MemsText(ms)) && At(s, k + |MemsText(ms)|) == RBRACE
    requires Occurs(s, k, MemsText(ns)) && At(s, k + |MemsText(ns)|) == RBRACE
    ensures ms == ns
    decreases ms, 1
  {
    hide MemText, MemsText, WfMem;
    MemsHead(s, k, ms);
    MemsHead(s, k, ns);
    MemUnique(s, k, ms[0], ns[0]);
    if |ms| > 1 {
      MemsUnique(s, k + |MemText(ms[0])| + 1, ms[1..], ns[1..]);
    }
    assert ms == [ms[0]] + ms[1..] && ns == [ns[0]] + ns[1..];
  }

  lemma {:induction false} MemUnique(s: bytes, k: nat, m: Mem, n: Mem)
    requires WfMem(m) && Occurs(s, k, MemText(m)) && Separator(At(s, k + |MemText(m)|))
    requires WfMem(n) && Occurs(s, k, MemText(n)) && Separator(At(s, k + |MemText(n)|))
    ensures m == n
    decreases m
  {
    hide MemHead, ElemText, WfElem, StringTokens.Wf, ReadName, Literal;
    NameComplete(s, k, m);
    NameComplete(s, k, n);
    HeadUnique(s, k, m, n);
    ElemUnique(s, k + |MemHead(m.pre, m.name, m.mid)|, m.elem, n.elem);
  }

  lemma {:induction false} HeadUnique(s: bytes, k: nat, m: Mem, n: Mem)
    requires WfMem(m) && Occurs(s, k, MemText(m)) && WfMem(n) && Occurs(s, k, MemText(n))
    ensures m.pre == n.pre && m.name == n.name && m.mid == n.mid
  {
    hide ElemText, WfElem, StringTokens.Wf, Literal;
    HeadWords(s, k, m);
    HeadWords(s, k, n);
    SameWord(s, k, m.pre, n.pre);
    LiteralUnique(s, k + |m.pre|, m.name, n.name);
    SameWord(s, k + |m.pre| + |Literal(m.name)|, m.mid, n.mid);
  }

  lemma {:induction false} HeadWords(s: bytes, k: nat, m: Mem)
    requires WfMem(m) && Occurs(s, k, MemText(m))
    ensures var q, a := k + |m.pre|, k + |m.pre| + |Literal(m.name)|;
            && Occurs(s, k, m.pre) && Occurs(s, q, Literal(m.name)) && Occurs(s, a, m.mid)
            && Skip(s, k) == q && Skip(s, a) == a + |m.mid|
  {
    hide ElemText, WfElem, StringTokens.Wf, Literal;
    var q, a := k + |m.pre|, k + |m.pre| + |Literal(m.name)|;
    OccursConcat(s, k, MemHead(m.pre, m.name, m.mid), ElemText(m.elem));
    HeadParts(s, k, m.pre, m.name, m.mid, q, a);
    SkipBlank(s, k, m.pre);
    SkipBlank(s, a, m.mid);
  }

  // The value that stands at i up to j is JSON as the standard has it.
  ghost predicate StandardValue(s: bytes, i: nat, j: nat) {
    exists t :: Rfc(t) && Derives(s, i, t, j)
  }

  // An accepted value is a value of the standard if and only if its derivation is one of the
  // standard's grammar: there is no other derivation to save it.
  lemma {:induction false} StandardIff(s: bytes, i: nat, t: Tree, j: nat)
    requires Derives(s, i, t, j)
    ensures ParseValue(s, i) == Ok(Meaning(t), j)
    ensures StandardValue(s, i, j) <==> Rfc(t)
  {
    hide ParseValue, Rfc, Text, Meaning, Follow;
    DerivedIsParsed(s, i, t, j);
    if u :| Rfc(u) && Derives(s, i, u, j) {
      Unique(s, i, t, u);
    }
  }

  // ---- Whole texts ----

  // A text of the standard: one value between blanks.
  ghost predicate Document(s: bytes) {
    exists pre, t, post :: RfcBlank(pre) && Rfc(t) && RfcBlank(post) && s == pre + Text(t) + post
  }

  // What the parser does not look at: the value ends at j, and nothing but the standard's blanks
  // stands around it.
  predicate OnlyBlanksAround(s: bytes, i: nat, j: nat)
    requires i <= j <= |s|
  {
    RfcBlank(s[..i]) && RfcBlank(s[j..])
  }

  lemma {:induction false} DocumentParts(pre: bytes, t: Tree, post: bytes)
    requires RfcBlank(pre) && RfcBlank(post) && Rfc(t)
    ensures var s, i, j := pre + Text(t) + post, |pre|, |pre| + |Text(t)|;
            && Wf(t) && ParseText(s) == Ok(Meaning(t), j) && Skip(s, 0) == i && Derives(s, i, t, j)
               && OnlyBlanksAround(s, i, j)
  {
    hide ParseText, Rfc, Text, Meaning, Follow;
    AcceptsRfc(pre, t, post);
    var s := pre + Text(t) + post;
    Surrounded(s, pre, t, post);
    assert s[..|pre|] == pre && s[|pre| + |Text(t)|..] == post;
  }

  lemma {:induction false} PartsMakeDocument(s: bytes, i: nat, t: Tree, j: nat)
    requires Rfc(t) && Derives(s, i, t, j) && OnlyBlanksAround(s, i, j)
    ensures Document(s)
  {
    hide Rfc, Wf, Text, Follow;
    OccursIsSlice(s, i, Text(t));
    assert s == s[..i] + s[i..j] + s[j..];
  }

  // A text is a document of the standard if and only if it is accepted, what was read as its value
  // is one of the standard's, and nothing but the standard's blanks was skipped before it or left
  // behind it.
  lemma {:induction false} DocumentIff(s: bytes)
    ensures Document(s) <==>
      var i, r := Skip(s, 0), ParseText(s);
      r.Ok? && StandardValue(s, i, r.pos) && OnlyBlanksAround(s, i, r.pos)
  {
    hide ParseValue, Rfc, RfcBlank, Text, Wf, Meaning, Follow, Occurs;
    if pre, t, post :| RfcBlank(pre) && Rfc(t) && RfcBlank(post) && s == pre + Text(t) + post {
      DocumentParts(pre, t, post);
    }
    var i, r := Skip(s, 0), ParseText(s);
    if r.Ok? && StandardValue(s, i, r.pos) && OnlyBlanksAround(s, i, r.pos) {
      var t :| Rfc(t) && Derives(s, i, t, r.pos);
      PartsMakeDocument(s, i, t, r.pos);
    }
  }

  // A literal that runs into the end of the input is no value of the standard.
  lemma OpenLiteralIsNone(s: bytes, i: nat, j: nat)
    requires i <= |s| && OpenLiteral(s, i)
    ensures !StandardValue(s, i, j)
  {
    hide Text, Strings.Complete, Strings.Close, StringTokens.Text, StringTokens.Wf;
    if t :| Rfc(t) && Derives(s, i, t, j) {
      LiteralCloses(s, i, t, j);
    }
  }

  lemma QuotedIsString(s: bytes, i: nat, t: Tree, j: nat)
    requires Derives(s, i, t, j) && At(s, i) == Strings.QUOTE
    ensures t.GStr?
  {
    hide Text, Wf, Follow, Strings.Complete, Strings.Decode, ParseArray, ParseObject, ParseNumber;
    FirstByte(t);
    DerivedIsParsed(s, i, t, j);
    StringOnly(t);
  }

  lemma {:induction false} StringOnly(t: Tree)
    requires Wf(t) && Meaning(t).Str?
    ensures t.GStr?
  {
  }

  lemma {:induction false} LiteralCloses(s: bytes, i: nat, t: Tree, j: nat)
    requires Derives(s, i, t, j) && At(s, i) == Strings.QUOTE
    ensures Strings.Complete(s, i + 1) && At(s, Strings.Close(s, i + 1)) == Strings.QUOTE
  {
    hide Strings.Complete, Strings.Close, StringTokens.Text, StringTokens.Wf;
    QuotedIsString(s, i, t, j);
    OccursBetween(s, i, Strings.QUOTE, StringTokens.Text(t.chs), Strings.QUOTE);
    StringTokens.DecodeTokens(s, i + 1, t.chs);
  }

  // So for an accepted text it is the one derivation that decides, and the blanks.
  lemma {:induction false} DocumentByDerivation(s: bytes) returns (t: Tree)
    requires ParseText(s).Ok? && !OpenLiteral(s, Skip(s, 0))
    ensures Derives(s, Skip(s, 0), t, ParseText(s).pos) && Wf(t) && ParseText(s).v == Meaning(t)
    ensures Document(s) <==> Rfc(t) && OnlyBlanksAround(s, Skip(s, 0), ParseText(s).pos)
  {
    hide ParseValue, Rfc, Text, Meaning, Follow, OpenLiteral;
    t := ValueSound(s, Skip(s, 0));
    StandardIff(s, Skip(s, 0), t, ParseText(s).pos);
    DocumentIff(s);
  }

  lemma {:induction false} NeverClosed(s: bytes)
    requires NulFree(s) && OpenLiteral(s, Skip(s, 0))
    ensures ParseText(s).Ok? && !Document(s)
  {
    hide Document, StandardValue, OpenLiteral;
    OpenLiteralAccepted(s, Skip(s, 0));
    OpenLiteralIsNone(s, Skip(s, 0), ParseText(s).pos);
    DocumentIff(s);
  }

  lemma {:induction false} OutsideNumber(s: bytes, tok: Numbers.NumTok, n: nat)
    requires Numbers.Wf(tok) && !Numbers.Rfc(tok) && s == Numbers.Text(tok) && tok.exp == Numbers.NoExp
    requires tok.frac == []
    requires Numbers.NatOf(tok.whole) == n && |s| > 0 && Numbers.Starts(s[0])
    requires Numbers.Ends(tok, 0, 0)
    ensures !Document(s)
  {
    hide Numbers.NatOf, Numbers.Text, Numbers.Ends, Numbers.Rfc, ParseText, Derives, Document;
    LenientNumber(s, tok, n);
    StandardIff(s, 0, GNum(tok), |s|);
    DocumentIff(s);
  }

  // A quote and nothing behind it.
  const NEVER_CLOSED: bytes := [34]

  // Texts that are accepted and no documents, each for another reason.
  lemma NoDocuments()
    ensures ParseText(LONE_MINUS).Ok? && !Document(LONE_MINUS)
    ensures ParseText(LEADING_ZERO).Ok? && !Document(LEADING_ZERO)
    ensures ParseText(TEXT_BEHIND).Ok? && !Document(TEXT_BEHIND)
    ensures ParseText(CONTROL_BYTE).Ok? && !Document(CONTROL_BYTE)
    ensures ParseText(NEVER_CLOSED).Ok? && !Document(NEVER_CLOSED)
  {
    hide ParseText, Document;
    AcceptsMoreThanRfc();
    OutsideNumber(LONE_MINUS, MINUS_TOKEN, 0);
    assert Numbers.NatOf([55]) == 7;
    OutsideNumber(LEADING_ZERO, ZERO_TOKEN, 7);
    BareTrue(TEXT_BEHIND, 0);
    DocumentIff(TEXT_BEHIND);
    assert !RfcBlank(TEXT_BEHIND[4..]) by { assert TEXT_BEHIND[4..][0] == 93; }
    BareTrue(CONTROL_BYTE, 1);
    DocumentIff(CONTROL_BYTE);
    assert !RfcBlank(CONTROL_BYTE[..1]) by { assert CONTROL_BYTE[..1][0] == 1; }
    NeverClosed(NEVER_CLOSED);
  }
}
