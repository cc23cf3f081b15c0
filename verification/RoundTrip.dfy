// The texts of sections 2 to 7 of RFC 8259 are accepted and consumed whole; the printer writes
// such texts, and parsing them gives the printed tree back.
module RoundTrip {
  import opened Bytes
  import opened Json
  import opened Parse
  import opened Grammar
  import Numbers
  import Rendering
  import Strings
  import StringTokens

  predicate RfcBlank(w: bytes) {
    forall k :: 0 <= k < |w| ==> w[k] == 32 || w[k] == 9 || w[k] == 10 || w[k] == 13
  }

  // The derivations of the standard's grammar.
  predicate Rfc(t: Tree)
    decreases t
  {
    match t
    case GNum(tok) => Numbers.Rfc(tok)
    case GStr(chs) => StringTokens.Rfc(chs)
    case GArr(es, ws) => RfcBlank(ws) && (|es| > 0 ==> ws == []) && forall i :: 0 <= i < |es| ==> RfcElem(es[i])
    case GObj(ms, ws) => RfcBlank(ws) && (|ms| > 0 ==> ws == []) && forall i :: 0 <= i < |ms| ==> RfcMem(ms[i])
    case _ => true
  }

  predicate RfcElem(e: Elem)
    decreases e
  {
    RfcBlank(e.pre) && RfcBlank(e.post) && Rfc(e.value)
  }

  predicate RfcMem(m: Mem)
    decreases m
  {
    RfcBlank(m.pre) && StringTokens.Rfc(m.name) && RfcBlank(m.mid) && RfcElem(m.elem)
  }

  // What makes a derivation one of the standard's: its blanks, the characters of its literals and
  // its numbers. The arrangement is the same.
  predicate Strict(t: Tree)
    decreases t
  {
    match t
    case GNum(tok) => Numbers.Rfc(tok)
    case GStr(chs) => StringTokens.Rfc(chs)
    case GArr(es, ws) => RfcBlank(ws) && forall i :: 0 <= i < |es| ==> StrictElem(es[i])
    case GObj(ms, ws) => RfcBlank(ws) && forall i :: 0 <= i < |ms| ==> StrictMem(ms[i])
    case _ => true
  }

  predicate StrictElem(e: Elem)
    decreases e
  {
    RfcBlank(e.pre) && RfcBlank(e.post) && Strict(e.value)
  }

  predicate StrictMem(m: Mem)
    decreases m
  {
    RfcBlank(m.pre) && RfcBlank(m.mid) && StringTokens.Rfc(m.name) && StrictElem(m.elem)
  }

  lemma {:induction false} RfcIff(t: Tree)
    ensures Rfc(t) <==> Wf(t) && Strict(t)
    decreases t
  {
    match t
    case GStr(chs) =>
      if StringTokens.Rfc(chs) {
        RfcCharsWf(chs);
      }
    case GArr(es, _) =>
      forall i | 0 <= i < |es| ensures RfcElem(es[i]) <==> WfElem(es[i]) && StrictElem(es[i]) {
        RfcElemIff(es[i]);
      }
    case GObj(ms, _) =>
      forall i | 0 <= i < |ms| ensures RfcMem(ms[i]) <==> WfMem(ms[i]) && StrictMem(ms[i]) {
        RfcMemIff(ms[i]);
      }
    case _ =>
  }

  lemma {:induction false} RfcElemIff(e: Elem)
    ensures RfcElem(e) <==> WfElem(e) && StrictElem(e)
    decreases e
  {
    RfcIff(e.value);
  }

  lemma {:induction false} RfcMemIff(m: Mem)
    ensures RfcMem(m) <==> WfMem(m) && StrictMem(m)
    decreases m
  {
    RfcElemIff(m.elem);
    if StringTokens.Rfc(m.name) {
      RfcCharsWf(m.name);
    }
  }

  lemma {:induction false} RfcCharsWf(chs: seq<StringTokens.Ch>)
    requires StringTokens.Rfc(chs)
    ensures StringTokens.Wf(chs)
  {
    forall i | 0 <= i < |chs| ensures StringTokens.WfCh(chs[i]) {
      assert StringTokens.RfcCh(chs[i]);
    }
  }

  lemma {:induction false} RfcIsWf(t: Tree)
    requires Rfc(t)
    ensures Wf(t)
  {
    RfcIff(t);
  }

  // A text of the standard, a value between blanks, is accepted; the value is consumed whole
  // and the tree has the structure and the member order the derivation denotes.
  lemma {:induction false} AcceptsRfc(pre: bytes, t: Tree, post: bytes)
    requires RfcBlank(pre) && RfcBlank(post) && Rfc(t)
    ensures Wf(t) && ParseText(pre + Text(t) + post) == Ok(Meaning(t), |pre| + |Text(t)|)
  {
    RfcIsWf(t);
    hide ParseValue, Text, Wf, Rfc, Meaning, Follow;
    var s := pre + Text(t) + post;
    Surrounded(s, pre, t, post);
    ValueComplete(s, |pre|, t);
  }

  lemma {:induction false} Surrounded(s: bytes, pre: bytes, t: Tree, post: bytes)
    requires s == pre + Text(t) + post && RfcBlank(pre) && RfcBlank(post) && Wf(t)
    ensures Skip(s, 0) == |pre| && Occurs(s, |pre|, Text(t)) && Follow(t, s, |pre| + |Text(t)|)
  {
    hide Text, Wf, Follow;
    Splits(s, pre, Text(t), post);
    FirstByte(t);
    HeadByte(s, |pre|, Text(t));
    HeadByte(s, |pre| + |Text(t)|, post);
    SkipBlank(s, 0, pre);
    BlankEnds(t, s, |pre| + |Text(t)|);
  }

  lemma BlankEnds(t: Tree, s: bytes, j: nat)
    requires j <= |s| && (At(s, j) == 0 || IsSpace(At(s, j)))
    ensures Follow(t, s, j)
  {
  }

  lemma {:induction false} Splits(s: bytes, a: bytes, b: bytes, c: bytes)
    requires s == a + b + c
    ensures Occurs(s, 0, a) && Occurs(s, |a|, b) && Occurs(s, |a| + |b|, c)
    ensures |s| == |a| + |b| + |c|
  {
    OccursIsSlice(s, 0, a);
    OccursIsSlice(s, |a|, b);
    OccursIsSlice(s, |a| + |b|, c);
  }

  // ---- The printer's texts as derivations ----

  function GapBefore(first: bool, fmt: bool): bytes {
    if fmt && !first then [SPACE] else []
  }

  // The line break and the indentation before a member name or a closing brace.
  function LineBreak(depth: nat, fmt: bool): bytes {
    if fmt then [NEWLINE] + Tabs(depth) else []
  }

  function Derivation(v: Value, depth: nat, fmt: bool): Tree
    requires Printable(v)
    decreases v
  {
    match v
    case Null => GNull
    case False => GFalse
    case True => GTrue
    case Num(r) => GNum(Rendering.RenderTok(r))
    case Str(t) => GStr(StringTokens.QuoteTokens(t.value))
    case Arr(items) => GArr(ElemsOf(items, depth + 1, fmt, true), [])
    case Obj(ms) => GObj(MemsOf(ms, depth, fmt), if |ms| == 0 then LineBreak(depth, fmt) else [])
  }

  function ElemsOf(items: seq<Value>, depth: nat, fmt: bool, first: bool): seq<Elem>
    requires forall i :: 0 <= i < |items| ==> Printable(items[i])
    decreases items
  {
    if |items| == 0 then [] else
      [Elem(GapBefore(first, fmt), Derivation(items[0], depth, fmt), [])]
      + ElemsOf(items[1..], depth, fmt, false)
  }

  function MemOf(m: Member, last: bool, depth: nat, fmt: bool): Mem
    requires PrintableMember(m)
    decreases m
  {
    Mem(LineBreak(depth + 1, fmt), StringTokens.QuoteTokens(m.name.value), [],
        Elem(if fmt then [TAB] else [], Derivation(m.value, depth + 1, fmt),
             if last then LineBreak(depth, fmt) else []))
  }

  function MemsOf(ms: seq<Member>, depth: nat, fmt: bool): seq<Mem>
    requires forall i :: 0 <= i < |ms| ==> PrintableMember(ms[i])
    decreases ms
  {
    if |ms| == 0 then [] else [MemOf(ms[0], |ms| == 1, depth, fmt)] + MemsOf(ms[1..], depth, fmt)
  }

  lemma {:induction false} TabsBlank(depth: nat)
    ensures RfcBlank(Tabs(depth))
  {
    if depth > 0 {
      TabsBlank(depth - 1);
    }
  }

  lemma LineBreakBlank(depth: nat, fmt: bool)
    ensures RfcBlank(LineBreak(depth, fmt))
  {
    TabsBlank(depth);
  }

  // t derives the printed text w under the standard's grammar and denotes v.
  predicate Derived(t: Tree, w: bytes, v: Value) {
    Rfc(t) && Wf(t) && Text(t) == w && Meaning(t) == v
  }

  lemma {:induction false} QuoteLiteral(t: bytes)
    requires NulFree(t)
    ensures var chs := StringTokens.QuoteTokens(t);
            && StringTokens.Rfc(chs) && StringTokens.Wf(chs)
            && Literal(chs) == StringTokens.Quote(t) && StringTokens.Meaning(chs) == t
  {
    StringTokens.QuoteIsTokens(t);
  }

  // The printed text is a text of the standard that denotes the printed tree, but for what its
  // numbers lose in writing.
  lemma {:induction false} PrintDerived(v: Value, depth: nat, fmt: bool)
    requires Printable(v)
    ensures Derived(Derivation(v, depth, fmt), Print(v, depth, fmt), Rounded(v))
    decreases v
  {
    match v
    case Num(r) => NumberDerived(r);
    case Str(t) => QuoteLiteral(t.value);
    case Arr(items) => ArrayDerived(items, depth, fmt);
    case Obj(ms) => ObjectDerived(ms, depth, fmt);
    case _ =>
  }

  lemma {:induction false} ArrayDerived(items: seq<Value>, depth: nat, fmt: bool)
    requires Printable(Arr(items))
    ensures Derived(Derivation(Arr(items), depth, fmt), Print(Arr(items), depth, fmt), Rounded(Arr(items)))
    decreases items, 1
  {
    ElemsDerived(items, depth + 1, fmt, true);
    hide Derived, PrintItems, ElemsOf, ElemsText, ElemMeanings, RfcElem, WfElem;
    ArrayOfElems(items, ElemsOf(items, depth + 1, fmt, true), depth, fmt);
  }

  lemma {:induction false} ArrayOfElems(items: seq<Value>, es: seq<Elem>, depth: nat, fmt: bool)
    requires |es| == |items| && forall i :: 0 <= i < |es| ==> RfcElem(es[i]) && WfElem(es[i])
    requires ElemMeanings(es) == RoundedItems(items)
    requires |items| > 0 ==> ElemsText(es) == GapBefore(true, fmt) + PrintItems(items, depth + 1, fmt)
    ensures Derived(GArr(es, []), Print(Arr(items), depth, fmt), Rounded(Arr(items)))
  {
    hide RfcElem, WfElem, ElemMeanings, ElemsText, PrintItems, RoundedItems;
    if |items| == 0 {
      assert items == [];
      EmptyPrints(depth + 1, fmt);
    }
  }

  lemma {:induction false} EmptyPrints(depth: nat, fmt: bool)
    ensures PrintItems([], depth, fmt) == []
  {
  }

  lemma {:induction false} ElemsDerived(items: seq<Value>, depth: nat, fmt: bool, first: bool)
    requires forall i :: 0 <= i < |items| ==> Printable(items[i])
    ensures var es := ElemsOf(items, depth, fmt, first);
            && |es| == |items|
            && (forall i :: 0 <= i < |es| ==> RfcElem(es[i]) && WfElem(es[i]))
            && ElemMeanings(es) == RoundedItems(items)
            && ElemsText(es) == (if |items| > 0 then GapBefore(first, fmt) else []) + PrintItems(items, depth, fmt)
    decreases items, 0
  {
    if |items| > 0 {
      var es := ElemsOf(items, depth, fmt, first);
      PrintDerived(items[0], depth, fmt);
      ElemsDerived(items[1..], depth, fmt, false);
      ElemDerived(es[0], items[0], depth, fmt, first);
      hide Derivation, ElemText, Print, PrintItems, RfcElem, WfElem, ElemsText, Derived, ElemMeaning;
      assert es[1..] == ElemsOf(items[1..], depth, fmt, false);
      assert items == [items[0]] + items[1..];
      ElemsTextStep(es, items, depth, fmt, first);
    }
  }

  lemma {:induction false} ElemsTextStep(es: seq<Elem>, items: seq<Value>, depth: nat, fmt: bool, first: bool)
    requires |es| == |items| > 0
    requires ElemText(es[0]) == GapBefore(first, fmt) + Print(items[0], depth, fmt)
    requires |items| > 1 ==> ElemsText(es[1..]) == GapBefore(false, fmt) + PrintItems(items[1..], depth, fmt)
    ensures ElemsText(es) == GapBefore(first, fmt) + PrintItems(items, depth, fmt)
  {
    hide ElemText, Print;
    if |items| > 1 {
      var gap, head, tail := GapBefore(first, fmt), Print(items[0], depth, fmt), PrintItems(items[1..], depth, fmt);
      assert ItemGap(fmt) == [COMMA] + GapBefore(false, fmt);
      Regroup(gap, head, [COMMA], GapBefore(false, fmt), tail);
    }
  }

  lemma Regroup(a: bytes, b: bytes, c: bytes, d: bytes, e: bytes)
    ensures (a + b) + (c + (d + e)) == a + (b + (c + d) + e)
  {
  }

  lemma {:induction false} ElemDerived(e: Elem, v: Value, depth: nat, fmt: bool, first: bool)
    requires e.pre == GapBefore(first, fmt) && e.post == [] && Derived(e.value, Print(v, depth, fmt), Rounded(v))
    ensures RfcElem(e) && WfElem(e) && ElemMeaning(e) == Rounded(v)
    ensures ElemText(e) == GapBefore(first, fmt) + Print(v, depth, fmt)
  {
    hide Text, Rfc, Wf, Meaning, Print;
    assert Text(e.value) + e.post == Text(e.value);
  }

  lemma {:induction false} ObjectDerived(ms: seq<Member>, depth: nat, fmt: bool)
    requires Printable(Obj(ms))
    ensures Derived(Derivation(Obj(ms), depth, fmt), Print(Obj(ms), depth, fmt), Rounded(Obj(ms)))
    decreases ms, 1
  {
    LineBreakBlank(depth, fmt);
    if |ms| > 0 {
      MemsDerived(ms, depth, fmt);
    }
    ObjectText(ms, depth, fmt);
  }

  // The line break behind the opening brace and the one before the closing brace.
  function Framed(ms: seq<Member>, depth: nat, fmt: bool): bytes {
    (if fmt then [NEWLINE] else []) + PrintMembers(ms, depth + 1, fmt) + (if fmt then Tabs(depth) else [])
  }

  lemma {:induction false} ObjectText(ms: seq<Member>, depth: nat, fmt: bool)
    ensures Print(Obj(ms), depth, fmt) == [LBRACE] + Framed(ms, depth, fmt) + [RBRACE]
    ensures |ms| == 0 ==> Framed(ms, depth, fmt) == LineBreak(depth, fmt)
  {
    var nl, body, tabs := if fmt then [NEWLINE] else [], PrintMembers(ms, depth + 1, fmt),
                          if fmt then Tabs(depth) else [];
    assert OpenObject(fmt) == [LBRACE] + nl;
    assert ([LBRACE] + nl) + body + (tabs + [RBRACE]) == [LBRACE] + (nl + body + tabs) + [RBRACE];
  }

  lemma {:induction false} MemsDerived(ms: seq<Member>, depth: nat, fmt: bool)
    requires |ms| > 0 && forall i :: 0 <= i < |ms| ==> PrintableMember(ms[i])
    ensures var gs := MemsOf(ms, depth, fmt);
            && |gs| == |ms|
            && (forall i :: 0 <= i < |gs| ==> RfcMem(gs[i]) && WfMem(gs[i]))
            && MemMeanings(gs) == RoundedMembers(ms)
            && MemsText(gs) == Framed(ms, depth, fmt)
    decreases ms, 0
  {
    var gs := MemsOf(ms, depth, fmt);
    MemDerived(ms[0], |ms| == 1, depth, fmt);
    hide MemOf, MemText, RfcMem, WfMem;
    assert gs[1..] == MemsOf(ms[1..], depth, fmt);
    assert ms == [ms[0]] + ms[1..];
    if |ms| > 1 {
      MemsDerived(ms[1..], depth, fmt);
    }
    FramedStep(ms, depth, fmt);
  }

  // What a member writes: its line break, its head and its value.
  function MemberText(m: Member, last: bool, depth: nat, fmt: bool): bytes {
    LineBreak(depth + 1, fmt) + PrintText(m.name) + (if fmt then [COLON, TAB] else [COLON])
    + Print(m.value, depth + 1, fmt) + (if last then LineBreak(depth, fmt) else [])
  }

  lemma {:induction false} FramedStep(ms: seq<Member>, depth: nat, fmt: bool)
    requires |ms| > 0
    ensures var rest := if |ms| == 1 then [] else [COMMA] + Framed(ms[1..], depth, fmt);
            Framed(ms, depth, fmt) == MemberText(ms[0], |ms| == 1, depth, fmt) + rest
  {
    hide Print, PrintText;
    var nl, tabs, end := if fmt then [NEWLINE] else [], if fmt then Tabs(depth + 1) else [],
                         if fmt then Tabs(depth) else [];
    var name, colon := PrintText(ms[0].name), if fmt then [COLON, TAB] else [COLON];
    var value, more := Print(ms[0].value, depth + 1, fmt), PrintMembers(ms[1..], depth + 1, fmt);
    assert LineBreak(depth + 1, fmt) == nl + tabs && LineBreak(depth, fmt) == nl + end;
    assert PrintMember(ms[0], depth + 1, fmt) == tabs + name + colon + value;
    LastMember(nl, tabs, name, colon, value, end);
    InnerMember(nl, tabs, name, colon, value, more, end);
  }

  lemma LastMember(nl: bytes, tabs: bytes, name: bytes, colon: bytes, value: bytes, end: bytes)
    ensures nl + (tabs + name + colon + value + ([] + nl) + []) + end
         == (nl + tabs) + name + colon + value + (nl + end)
  {
  }

  lemma InnerMember(nl: bytes, tabs: bytes, name: bytes, colon: bytes, value: bytes, more: bytes, end: bytes)
    ensures nl + (tabs + name + colon + value + ([COMMA] + nl) + more) + end
         == ((nl + tabs) + name + colon + value + []) + ([COMMA] + (nl + more + end))
  {
  }

  lemma {:induction false} MemDerived(m: Member, last: bool, depth: nat, fmt: bool)
    requires PrintableMember(m)
    ensures var g := MemOf(m, last, depth, fmt);
            RfcMem(g) && WfMem(g) && MemMeaning(g) == RoundedMember(m) && MemText(g) == MemberText(m, last, depth, fmt)
    decreases m
  {
    var g := MemOf(m, last, depth, fmt);
    assert Derived(g.elem.value, Print(m.value, depth + 1, fmt), Rounded(m.value)) by {
      PrintDerived(m.value, depth + 1, fmt);
    }
    MemLayout(m, last, depth, fmt);
    MemOfDerived(g, m, Print(m.value, depth + 1, fmt));
    hide MemOf, RfcMem, WfMem, Derived, Print, MemText;
  }

  lemma {:induction false} MemLayout(m: Member, last: bool, depth: nat, fmt: bool)
    requires PrintableMember(m)
    ensures var g := MemOf(m, last, depth, fmt);
            && RfcBlank(g.pre) && RfcBlank(g.elem.pre) && RfcBlank(g.elem.post) && g.mid == []
            && g.name == StringTokens.QuoteTokens(m.name.value)
            && MemberText(m, last, depth, fmt) == g.pre + StringTokens.Quote(m.name.value)
                 + ([COLON] + g.elem.pre) + Print(m.value, depth + 1, fmt) + g.elem.post
  {
    hide Derivation, Print, LineBreak, StringTokens.Quote, StringTokens.QuoteTokens;
    LineBreakBlank(depth, fmt);
    LineBreakBlank(depth + 1, fmt);
    assert [COLON] + [] == [COLON] && [COLON] + [TAB] == [COLON, TAB];
  }

  lemma {:induction false} MemOfDerived(g: Mem, m: Member, value: bytes)
    requires m.name.Some? && NulFree(m.name.value) && g.name == StringTokens.QuoteTokens(m.name.value)
    requires RfcBlank(g.pre) && RfcBlank(g.elem.pre) && RfcBlank(g.elem.post) && g.mid == []
    requires Derived(g.elem.value, value, Rounded(m.value))
    ensures RfcMem(g) && WfMem(g) && MemMeaning(g) == RoundedMember(m)
    ensures MemText(g) == g.pre + StringTokens.Quote(m.name.value) + ([COLON] + g.elem.pre) + value + g.elem.post
  {
    QuoteLiteral(m.name.value);
    MemParts(g, m.name.value, value);
    hide Text, Rfc, Meaning, Wf, Literal, MemText, StringTokens.QuoteTokens, StringTokens.Quote, StringTokens.Rfc,
         StringTokens.Wf, StringTokens.Meaning;
    RfcMemIff(g);
  }

  lemma {:induction false} MemParts(g: Mem, name: bytes, value: bytes)
    requires g.mid == [] && Literal(g.name) == StringTokens.Quote(name) && Text(g.elem.value) == value
    ensures MemText(g) == g.pre + StringTokens.Quote(name) + ([COLON] + g.elem.pre) + value + g.elem.post
  {
    hide Text, Literal, StringTokens.Quote;
    var q := StringTokens.Quote(name);
    assert [] + [COLON] == [COLON];
    assert (g.pre + (q + [COLON])) + (g.elem.pre + (value + g.elem.post))
        == g.pre + q + ([COLON] + g.elem.pre) + value + g.elem.post;
  }

  lemma NumberDerived(r: real)
    ensures var t := GNum(Rendering.RenderTok(r)); Derived(t, Rendering.Render(r), Num(Rendering.Written(r)))
  {
    Rendering.RenderIsRfc(r);
    Rendering.ExactIff(r);
    hide Rendering.RenderTok, Rendering.Exact, Numbers.Value, Numbers.Wf, Numbers.Rfc, Numbers.Text;
  }

  // Nothing behind the printed text can lengthen it; only a number can be lengthened.
  predicate CannotExtend(v: Value, s: bytes, j: nat)
    requires j <= |s|
  {
    v.Num? ==> Numbers.Ends(Rendering.RenderTok(v.r), At(s, j), Numbers.Behind(s, j))
  }

  // Parsing what was printed, at any depth, in either layout and before any text that cannot
  // extend it, gives the tree back, its numbers as written, with the cursor right behind the
  // printed text.
  lemma {:induction false} ParsePrint(v: Value, depth: nat, fmt: bool, s: bytes, i: nat)
    requires Printable(v) && Occurs(s, i, Print(v, depth, fmt))
    requires CannotExtend(v, s, i + |Print(v, depth, fmt)|)
    ensures ParseValue(s, i) == Ok(Rounded(v), i + |Print(v, depth, fmt)|)
    ensures Exact(v) ==> ParseValue(s, i) == Ok(v, i + |Print(v, depth, fmt)|)
  {
    hide ParseValue, Text, Rfc, Wf, Print, Printable, Derivation, Meaning, Rounded, Exact, Occurs;
    PrintDerived(v, depth, fmt);
    RoundedIffExact(v);
    SameFollow(v, depth, fmt, s, i + |Print(v, depth, fmt)|);
    ValueComplete(s, i, Derivation(v, depth, fmt));
  }

  lemma {:induction false} SameFollow(v: Value, depth: nat, fmt: bool, s: bytes, j: nat)
    requires Printable(v) && j <= |s| && CannotExtend(v, s, j)
    ensures Follow(Derivation(v, depth, fmt), s, j)
  {
  }

  lemma {:induction false} ParsePrintAlone(v: Value, depth: nat, fmt: bool)
    requires Printable(v)
    ensures ParseText(Print(v, depth, fmt)) == Ok(Rounded(v), |Print(v, depth, fmt)|)
  {
    hide ParseValue, Print, Printable, Rounded, Exact, CannotExtend, Occurs;
    var s := Print(v, depth, fmt);
    PrintStarts(v, depth, fmt);
    assert s[0..|s|] == s;
    OccursIsSlice(s, 0, s);
    EndExtendsNothing(v, s);
    ParsePrint(v, depth, fmt, s, 0);
  }

  lemma {:induction false} PrintStarts(v: Value, depth: nat, fmt: bool)
    requires Printable(v)
    ensures Skip(Print(v, depth, fmt), 0) == 0
  {
    hide Text, Rfc, Wf, Print, Printable, Derivation, Meaning, Rounded;
    PrintDerived(v, depth, fmt);
    FirstByte(Derivation(v, depth, fmt));
  }

  lemma EndExtendsNothing(v: Value, s: bytes)
    ensures CannotExtend(v, s, |s|)
  {
    hide Rendering.RenderTok;
  }

  // Two printable trees with the same text are the same tree, whatever their layouts, if they
  // lose nothing in writing.
  lemma {:induction false} PrintInjective(v: Value, d: nat, f: bool, w: Value, e: nat, g: bool)
    requires Printable(v) && Printable(w) && Print(v, d, f) == Print(w, e, g)
    ensures Rounded(v) == Rounded(w) && (Exact(v) && Exact(w) ==> v == w)
  {
    hide Print, Printable, ParseText, Rounded, Exact;
    ParsePrintAlone(v, d, f);
    ParsePrintAlone(w, e, g);
    RoundedIffExact(v);
    RoundedIffExact(w);
  }

  // The compact and the indented text of a tree read back as the same tree.
  lemma {:induction false} LayoutsAgree(v: Value)
    requires Printable(v)
    ensures ParseText(Print(v, 0, true)).Ok? && ParseText(Print(v, 0, false)).Ok?
    ensures ParseText(Print(v, 0, true)).v == ParseText(Print(v, 0, false)).v == Rounded(v)
  {
    hide Print, Printable, ParseText, Rounded;
    ParsePrintAlone(v, 0, true);
    ParsePrintAlone(v, 0, false);
  }

  // ---- Trees with null texts ----

  // No parsed tree holds a null text or name.
  lemma {:induction false} ParsedIsFilled(s: bytes, i: nat)
    requires i <= |s| && ParseValue(s, i).Ok?
    ensures Filled(ParseValue(s, i).v)
    decreases |s| - i, 0
  {
    hide ParseElems, ParseMembers, Numbers.Scan, Strings.Decode, Strings.Complete;
    if i < |s| && s[i] == LBRACKET {
      if At(s, Skip(s, i + 1)) != RBRACKET {
        ElemsFilled(s, Skip(s, i + 1), []);
      }
    } else if i < |s| && s[i] == LBRACE {
      if At(s, Skip(s, i + 1)) != RBRACE {
        MembersFilled(s, Skip(s, i + 1), []);
      }
    }
  }

  lemma {:induction false} ElemsFilled(s: bytes, k: nat, acc: seq<Value>)
    requires k <= |s| && ParseElems(s, k, acc).Ok? && Filled(Arr(acc))
    ensures Filled(ParseElems(s, k, acc).v)
    decreases |s| - k, 1
  {
    hide ParseValue;
    var e := ParseValue(s, Skip(s, k));
    ParsedIsFilled(s, Skip(s, k));
    var j := Skip(s, e.pos);
    if At(s, j) == COMMA {
      ElemsFilled(s, j + 1, acc + [e.v]);
    }
  }

  lemma {:induction false} MembersFilled(s: bytes, k: nat, acc: seq<Member>)
    requires k <= |s| && ParseMembers(s, k, acc).Ok? && Filled(Obj(acc))
    ensures Filled(ParseMembers(s, k, acc).v)
    decreases |s| - k, 1
  {
    hide ParseValue, ReadName;
    var name := ReadName(s, k);
    var e := ParseValue(s, Skip(s, name.next));
    ParsedIsFilled(s, Skip(s, name.next));
    var m := Member(Some(name.name), e.v);
    assert FilledMember(m);
    var j := Skip(s, e.pos);
    if At(s, j) == COMMA {
      MembersFilled(s, j + 1, acc + [m]);
    }
  }

  // The round trip, for every tree whose texts are C strings: the printed text gives the tree
  // back whole if and only if no text or name is null and no number loses anything in writing.
  lemma {:induction false} RoundTripIff(v: Value, depth: nat, fmt: bool)
    requires Clean(v)
    ensures ParseText(Print(v, depth, fmt)) == Ok(v, |Print(v, depth, fmt)|) <==> Filled(v) && Exact(v)
  {
    hide Print, ParseValue, Filled, Clean, Rounded, Exact;
    var s := Print(v, depth, fmt);
    RoundedIffExact(v);
    if Filled(v) {
      ParsePrintAlone(v, depth, fmt);
    } else if ParseText(s) == Ok(v, |s|) {
      ParsedIsFilled(s, Skip(s, 0));
    }
  }

  // An array of one null text prints like an empty array, a null text alone like nothing.
  lemma {:induction false} NullTexts()
    ensures Print(Arr([Str(None)]), 0, false) == [LBRACKET, RBRACKET]
    ensures ParseText(Print(Arr([Str(None)]), 0, false)) == Ok(Arr([]), 2)
    ensures ParseText(Print(Str(None), 0, false)) == Fail(0)
  {
    assert PrintItems([Str(None)], 1, false) == [];
    EmptyArrayParsed();
    assert Print(Str(None), 0, false) == [];
  }

  lemma EmptyArrayParsed()
    ensures ParseText([LBRACKET, RBRACKET]) == Ok(Arr([]), 2)
  {
    hide ParseElems, Numbers.Scan;
    var s: bytes := [LBRACKET, RBRACKET];
    assert s[0] != NULL_WORD[0] && s[0] != FALSE_WORD[0] && s[0] != TRUE_WORD[0];
    assert Skip(s, 0) == 0 && Skip(s, 1) == 1;
    assert ParseArray(s, 0) == Ok(Arr([]), 2);
  }
}
