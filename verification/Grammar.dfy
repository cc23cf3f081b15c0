// The language of the parser as derivation trees, and the sublanguage of sections 2 to 7 of
// RFC 8259. The parser accepts exactly the derivable texts and builds the tree they denote.
module Grammar {
  import opened Bytes
  import opened Json
  import opened Parse
  import Numbers
  import Strings
  import StringTokens

  // ws is the blank inside an empty array or object.
  datatype Tree =
    | GNull
    | GFalse
    | GTrue
    | GNum(tok: Numbers.NumTok)
    | GStr(chs: seq<StringTokens.Ch>)
    | GArr(elems: seq<Elem>, ws: bytes)
    | GObj(mems: seq<Mem>, ws: bytes)

  datatype Elem = Elem(pre: bytes, value: Tree, post: bytes)

  datatype Mem = Mem(pre: bytes, name: seq<StringTokens.Ch>, mid: bytes, elem: Elem)

  function Literal(chs: seq<StringTokens.Ch>): bytes {
    [Strings.QUOTE] + StringTokens.Text(chs) + [Strings.QUOTE]
  }

  function Text(t: Tree): bytes
    decreases t
  {
    match t
    case GNull => NULL_WORD
    case GFalse => FALSE_WORD
    case GTrue => TRUE_WORD
    case GNum(tok) => Numbers.Text(tok)
    case GStr(chs) => Literal(chs)
    case GArr(es, ws) => [LBRACKET] + (if |es| == 0 then ws else ElemsText(es)) + [RBRACKET]
    case GObj(ms, ws) => [LBRACE] + (if |ms| == 0 then ws else MemsText(ms)) + [RBRACE]
  }

  function ElemText(e: Elem): bytes
    decreases e
  {
    e.pre + (Text(e.value) + e.post)
  }

  // Elements with a comma between any two and none behind the last.
  function ElemsText(es: seq<Elem>): bytes
    decreases es
  {
    if |es| == 0 then []
    else if |es| == 1 then ElemText(es[0])
    else ElemText(es[0]) + ([COMMA] + ElemsText(es[1..]))
  }

  function MemHead(pre: bytes, name: seq<StringTokens.Ch>, mid: bytes): bytes {
    pre + (Literal(name) + (mid + [COLON]))
  }

  function MemText(m: Mem): bytes
    decreases m
  {
    MemHead(m.pre, m.name, m.mid) + ElemText(m.elem)
  }

  function MemsText(ms: seq<Mem>): bytes
    decreases ms
  {
    if |ms| == 0 then []
    else if |ms| == 1 then MemText(ms[0])
    else MemText(ms[0]) + ([COMMA] + MemsText(ms[1..]))
  }

  // What the parser takes: blanks are any bytes from 1 to 32.
  predicate Wf(t: Tree)
    decreases t
  {
    match t
    case GNum(tok) => Numbers.Wf(tok)
    case GStr(chs) => StringTokens.Wf(chs)
    case GArr(es, ws) => Blank(ws) && (|es| > 0 ==> ws == []) && forall i :: 0 <= i < |es| ==> WfElem(es[i])
    case GObj(ms, ws) => Blank(ws) && (|ms| > 0 ==> ws == []) && forall i :: 0 <= i < |ms| ==> WfMem(ms[i])
    case _ => true
  }

  predicate WfElem(e: Elem)
    decreases e
  {
    Blank(e.pre) && Blank(e.post) && Wf(e.value)
  }

  predicate WfMem(m: Mem)
    decreases m
  {
    Blank(m.pre) && StringTokens.Wf(m.name) && Blank(m.mid) && WfElem(m.elem)
  }

  // The tree a derivation denotes.
  function Meaning(t: Tree): Value
    requires Wf(t)
    decreases t
  {
    match t
    case GNull => Null
    case GFalse => False
    case GTrue => True
    case GNum(tok) => Num(Numbers.Value(tok))
    case GStr(chs) => Str(Some(StringTokens.Meaning(chs)))
    case GArr(es, _) => Arr(ElemMeanings(es))
    case GObj(ms, _) => Obj(MemMeanings(ms))
  }

  function ElemMeanings(es: seq<Elem>): (vs: seq<Value>)
    requires forall i :: 0 <= i < |es| ==> WfElem(es[i])
    ensures |vs| == |es|
    decreases es
  {
    if |es| == 0 then [] else [ElemMeaning(es[0])] + ElemMeanings(es[1..])
  }

  function MemMeanings(ms: seq<Mem>): (vs: seq<Member>)
    requires forall i :: 0 <= i < |ms| ==> WfMem(ms[i])
    ensures |vs| == |ms|
    decreases ms
  {
    if |ms| == 0 then [] else [MemMeaning(ms[0])] + MemMeanings(ms[1..])
  }

  function ElemMeaning(e: Elem): Value
    requires WfElem(e)
    decreases e
  {
    Meaning(e.value)
  }

  function MemMeaning(m: Mem): Member
    requires WfMem(m)
    decreases m
  {
    Member(Some(StringTokens.Meaning(m.name)), ElemMeaning(m.elem))
  }

  // What stands behind the text, from j on, cannot belong to it: it does not lengthen a number.
  predicate Follow(t: Tree, s: bytes, j: nat)
    requires j <= |s|
  {
    t.GNum? ==> Numbers.Ends(t.tok, At(s, j), Numbers.Behind(s, j))
  }

  lemma {:induction false} FirstByte(t: Tree)
    requires Wf(t)
    ensures |Text(t)| > 0
    ensures !IsSpace(Text(t)[0]) && Text(t)[0] != RBRACKET
  {
    if t.GNum? {
      Numbers.TextNonEmpty(t.tok);
    }
  }

  // ---- Every derivable text is accepted, consumed whole and read as it denotes ----

  lemma {:induction false} LiteralComplete(s: bytes, i: nat, chs: seq<StringTokens.Ch>)
    requires StringTokens.Wf(chs) && Occurs(s, i, Literal(chs))
    ensures i < |s| && s[i] == Strings.QUOTE && Strings.Complete(s, i + 1)
    ensures Strings.Decode(s, i + 1) == StringTokens.Meaning(chs)
    ensures Strings.AfterLiteral(s, i + 1) == i + |Literal(chs)|
  {
    OccursBetween(s, i, Strings.QUOTE, StringTokens.Text(chs), Strings.QUOTE);
    StringTokens.DecodeTokens(s, i + 1, chs);
  }

  lemma {:induction false} NumberComplete(s: bytes, i: nat, tok: Numbers.NumTok)
    requires Numbers.Wf(tok) && Occurs(s, i, Numbers.Text(tok))
    requires Follow(GNum(tok), s, i + |Numbers.Text(tok)|)
    ensures ParseValue(s, i) == Ok(Num(Numbers.Value(tok)), i + |Numbers.Text(tok)|)
  {
    hide Numbers.Text, Numbers.Scan, Numbers.Wf, Numbers.Value, Numbers.Ends;
    Numbers.TextNonEmpty(tok);
    HeadByte(s, i, Numbers.Text(tok));
    Numbers.ScanComplete(s, i, tok);
  }

  // The blanks around an element are skipped; the cursor ends on the byte behind them.
  lemma {:induction false} BlanksAround(s: bytes, k: nat, e: Elem)
    requires WfElem(e) && Occurs(s, k, ElemText(e)) && !IsSpace(At(s, k + |ElemText(e)|))
    ensures Skip(s, k) == k + |e.pre| && Occurs(s, k + |e.pre|, Text(e.value))
    ensures Skip(s, k + |e.pre| + |Text(e.value)|) == k + |ElemText(e)|
    ensures |e.post| == 0 || IsSpace(At(s, k + |e.pre| + |Text(e.value)|))
  {
    OccursConcat(s, k, e.pre, Text(e.value) + e.post);
    OccursConcat(s, k + |e.pre|, Text(e.value), e.post);
    FirstByte(e.value);
    HeadByte(s, k + |e.pre|, Text(e.value));
    HeadByte(s, k + |e.pre| + |Text(e.value)|, e.post);
    SkipBlank(s, k, e.pre);
    SkipBlank(s, k + |e.pre| + |Text(e.value)|, e.post);
  }

  predicate Separator(c: byte) {
    c == COMMA || c == RBRACKET || c == RBRACE
  }

  // An element whose following byte is a separator is read whole.
  lemma {:induction false} ElemComplete(s: bytes, k: nat, e: Elem)
    requires WfElem(e) && Occurs(s, k, ElemText(e)) && Separator(At(s, k + |ElemText(e)|))
    ensures ParseValue(s, Skip(s, k)) == Ok(ElemMeaning(e), k + |e.pre| + |Text(e.value)|)
    ensures Skip(s, k + |e.pre| + |Text(e.value)|) == k + |ElemText(e)|
    decreases e, 0
  {
    hide ParseValue, Text;
    BlanksAround(s, k, e);
    ValueComplete(s, k + |e.pre|, e.value);
  }

  // Every derivable text is accepted and consumed whole, and gives the tree it denotes,
  // whatever follows that cannot belong to it.
  lemma {:induction false} ValueComplete(s: bytes, i: nat, t: Tree)
    requires Wf(t) && Occurs(s, i, Text(t)) && Follow(t, s, i + |Text(t)|)
    ensures ParseValue(s, i) == Ok(Meaning(t), i + |Text(t)|)
    decreases t
  {
    hide ParseValue, Text, Wf, Follow, Meaning;
    match t
    case GArr(_, _) => ArrayComplete(s, i, t);
    case GObj(_, _) => ObjectComplete(s, i, t);
    case _ => LeafComplete(s, i, t);
  }

  lemma {:induction false} LeafComplete(s: bytes, i: nat, t: Tree)
    requires !t.GArr? && !t.GObj? && Wf(t) && Occurs(s, i, Text(t)) && Follow(t, s, i + |Text(t)|)
    ensures ParseValue(s, i) == Ok(Meaning(t), i + |Text(t)|)
  {
    hide Numbers.Scan, Numbers.Value, ParseValue, ElemsText, MemsText, Literal;
    match t
    case GNum(tok) => NumberComplete(s, i, tok);
    case GStr(chs) => StringComplete(s, i, chs);
    case _ => WordComplete(s, i, t);
  }

  lemma {:induction false} WordComplete(s: bytes, i: nat, t: Tree)
    requires (t.GNull? || t.GFalse? || t.GTrue?) && Occurs(s, i, Text(t))
    ensures ParseValue(s, i) == Ok(Meaning(t), i + |Text(t)|)
  {
    hide ParseArray, ParseObject, ParseNumber, ParseString;
  }

  lemma {:induction false} StringComplete(s: bytes, i: nat, chs: seq<StringTokens.Ch>)
    requires StringTokens.Wf(chs) && Occurs(s, i, Literal(chs))
    ensures ParseValue(s, i) == Ok(Str(Some(StringTokens.Meaning(chs))), i + |Literal(chs)|)
  {
    hide ParseArray, ParseObject, ParseNumber, Strings.Complete, Strings.Decode, Strings.AfterLiteral, Literal,
         StringTokens.Wf;
    LiteralComplete(s, i, chs);
  }

  lemma {:induction false} ArrayComplete(s: bytes, i: nat, t: Tree)
    requires t.GArr? && Wf(t) && Occurs(s, i, Text(t))
    ensures ParseValue(s, i) == Ok(Meaning(t), i + |Text(t)|)
    decreases t, 0
  {
    hide Numbers.Scan, Strings.Complete, ParseElems, ElemsText;
    var es := t.elems;
    if |es| == 0 {
      OccursBetween(s, i, LBRACKET, t.ws, RBRACKET);
      SkipBlank(s, i + 1, t.ws);
    } else {
      OccursBetween(s, i, LBRACKET, ElemsText(es), RBRACKET);
      ElemsComplete(s, i + 1, es, []);
      FirstElemByte(s, i + 1, es);
      FullArray(s, i);
      ElemMeaningsFrom(es);
    }
  }

  lemma {:induction false} ElemMeaningsFrom(es: seq<Elem>)
    requires forall i :: 0 <= i < |es| ==> WfElem(es[i])
    ensures [] + ElemMeanings(es) == ElemMeanings(es)
  {
  }

  // Behind an opening bracket the elements are looked for from the first byte that is no blank.
  lemma {:induction false} FullArray(s: bytes, i: nat)
    requires i < |s| && s[i] == LBRACKET && At(s, Skip(s, i + 1)) != RBRACKET
    ensures ParseValue(s, i) == ParseElems(s, i + 1, [])
  {
    hide ParseElems, Numbers.Scan, Strings.Complete, Strings.Decode;
    assert ParseValue(s, i) == ParseElems(s, Skip(s, i + 1), []);
    ElemsSkip(s, i + 1);
  }

  lemma {:induction false} ElemsSkip(s: bytes, k: nat)
    requires k <= |s|
    ensures ParseElems(s, Skip(s, k), []) == ParseElems(s, k, [])
  {
    assert Skip(s, Skip(s, k)) == Skip(s, k);
  }

  // The list of the first element and the rest, at k.
  lemma {:induction false} ElemsHead(s: bytes, k: nat, es: seq<Elem>)
    requires |es| > 0 && Occurs(s, k, ElemsText(es))
    ensures Occurs(s, k, ElemText(es[0]))
    ensures |es| == 1 ==> |ElemsText(es)| == |ElemText(es[0])|
    ensures |es| > 1 ==> At(s, k + |ElemText(es[0])|) == COMMA
    ensures |es| > 1 ==> Occurs(s, k + |ElemText(es[0])| + 1, ElemsText(es[1..]))
    ensures |es| > 1 ==> |ElemsText(es)| == |ElemText(es[0])| + 1 + |ElemsText(es[1..])|
  {
    if |es| > 1 {
      OccursConcat(s, k, ElemText(es[0]), [COMMA] + ElemsText(es[1..]));
      OccursConcat(s, k + |ElemText(es[0])|, [COMMA], ElemsText(es[1..]));
    }
  }

  lemma {:induction false} FirstElemByte(s: bytes, k: nat, es: seq<Elem>)
    requires |es| > 0 && WfElem(es[0]) && Occurs(s, k, ElemsText(es))
    ensures At(s, Skip(s, k)) != RBRACKET
  {
    ElemsHead(s, k, es);
    var e := es[0];
    FirstValueByte(s, k, e);
  }

  lemma {:induction false} FirstValueByte(s: bytes, k: nat, e: Elem)
    requires WfElem(e) && Occurs(s, k, ElemText(e))
    ensures At(s, Skip(s, k)) != RBRACKET
  {
    OccursConcat(s, k, e.pre, Text(e.value) + e.post);
    OccursConcat(s, k + |e.pre|, Text(e.value), e.post);
    FirstByte(e.value);
    HeadByte(s, k + |e.pre|, Text(e.value));
    SkipBlank(s, k, e.pre);
  }

  // One turn of the element loop.
  lemma {:induction false} ElemStep(s: bytes, k: nat, e: Elem, acc: seq<Value>)
    requires WfElem(e) && Occurs(s, k, ElemText(e)) && Separator(At(s, k + |ElemText(e)|))
    ensures At(s, k + |ElemText(e)|) == COMMA ==>
      ParseElems(s, k, acc) == ParseElems(s, k + |ElemText(e)| + 1, acc + [ElemMeaning(e)])
    ensures At(s, k + |ElemText(e)|) == RBRACKET ==>
      ParseElems(s, k, acc) == Ok(Arr(acc + [ElemMeaning(e)]), k + |ElemText(e)| + 1)
    decreases e, 1
  {
    hide ParseValue, Text, ElemText;
    ElemComplete(s, k, e);
  }

  lemma {:induction false} ElemMeaningsHead(es: seq<Elem>, acc: seq<Value>)
    requires |es| > 0 && (forall i :: 0 <= i < |es| ==> WfElem(es[i]))
    ensures |es| == 1 ==> acc + ElemMeanings(es) == acc + [ElemMeaning(es[0])]
    ensures acc + ElemMeanings(es) == acc + [ElemMeaning(es[0])] + ElemMeanings(es[1..])
  {
  }

  lemma {:induction false} ElemsComplete(s: bytes, k: nat, es: seq<Elem>, acc: seq<Value>)
    requires |es| > 0 && (forall i :: 0 <= i < |es| ==> WfElem(es[i]))
    requires Occurs(s, k, ElemsText(es)) && At(s, k + |ElemsText(es)|) == RBRACKET
    ensures ParseElems(s, k, acc) == Ok(Arr(acc + ElemMeanings(es)), k + |ElemsText(es)| + 1)
    decreases es
  {
    hide ParseValue, ElemText, Text, ElemsText, ElemMeanings, ElemMeaning, WfElem;
    ElemsHead(s, k, es);
    ElemMeaningsHead(es, acc);
    ElemStep(s, k, es[0], acc);
    if |es| > 1 {
      ElemsComplete(s, k + |ElemText(es[0])| + 1, es[1..], acc + [ElemMeaning(es[0])]);
    }
  }

  lemma {:induction false} ObjectComplete(s: bytes, i: nat, t: Tree)
    requires t.GObj? && Wf(t) && Occurs(s, i, Text(t))
    ensures ParseValue(s, i) == Ok(Meaning(t), i + |Text(t)|)
    decreases t, 0
  {
    hide ParseMembers, MemsText, Numbers.Scan, Strings.Complete, Strings.Decode;
    var ms := t.mems;
    if |ms| == 0 {
      OccursBetween(s, i, LBRACE, t.ws, RBRACE);
      SkipBlank(s, i + 1, t.ws);
    } else {
      OccursBetween(s, i, LBRACE, MemsText(ms), RBRACE);
      MemsComplete(s, i + 1, ms, []);
      FirstMemByte(s, i + 1, ms);
      FullObject(s, i);
      MemMeaningsFrom(ms);
    }
  }

  lemma {:induction false} MemMeaningsFrom(ms: seq<Mem>)
    requires forall i :: 0 <= i < |ms| ==> WfMem(ms[i])
    ensures [] + MemMeanings(ms) == MemMeanings(ms)
  {
  }

  // Behind an opening brace the members are looked for from the first byte that is no blank.
  lemma {:induction false} FullObject(s: bytes, i: nat)
    requires i < |s| && s[i] == LBRACE && At(s, Skip(s, i + 1)) == Strings.QUOTE
    ensures ParseValue(s, i) == ParseMembers(s, i + 1, [])
  {
    hide ParseMembers, ReadName, Numbers.Scan, Strings.Complete, Strings.Decode;
    assert ParseValue(s, i) == ParseMembers(s, Skip(s, i + 1), []);
    MemsSkip(s, i + 1);
  }

  lemma {:induction false} NameSkip(s: bytes, k: nat)
    requires k <= |s|
    ensures ReadName(s, Skip(s, k)) == ReadName(s, k)
  {
    hide Strings.Complete, Strings.Decode, Strings.AfterLiteral;
    assert Skip(s, Skip(s, k)) == Skip(s, k);
  }

  lemma {:induction false} MemsSkip(s: bytes, k: nat)
    requires k <= |s|
    ensures ParseMembers(s, Skip(s, k), []) == ParseMembers(s, k, [])
  {
    hide ParseValue, ReadName;
    NameSkip(s, k);
  }

  lemma {:induction false} FirstMemByte(s: bytes, k: nat, ms: seq<Mem>)
    requires |ms| > 0 && WfMem(ms[0]) && Occurs(s, k, MemsText(ms))
    ensures At(s, Skip(s, k)) == Strings.QUOTE
  {
    MemsHead(s, k, ms);
    NameComplete(s, k, ms[0]);
  }

  lemma {:induction false} MemsHead(s: bytes, k: nat, ms: seq<Mem>)
    requires |ms| > 0 && Occurs(s, k, MemsText(ms))
    ensures Occurs(s, k, MemText(ms[0]))
    ensures |ms| == 1 ==> |MemsText(ms)| == |MemText(ms[0])|
    ensures |ms| > 1 ==> At(s, k + |MemText(ms[0])|) == COMMA
    ensures |ms| > 1 ==> Occurs(s, k + |MemText(ms[0])| + 1, MemsText(ms[1..]))
    ensures |ms| > 1 ==> |MemsText(ms)| == |MemText(ms[0])| + 1 + |MemsText(ms[1..])|
  {
    if |ms| > 1 {
      OccursConcat(s, k, MemText(ms[0]), [COMMA] + MemsText(ms[1..]));
      OccursConcat(s, k + |MemText(ms[0])|, [COMMA], MemsText(ms[1..]));
    }
  }

  // The name of a member and its colon are found.
  lemma {:induction false} NameComplete(s: bytes, k: nat, m: Mem)
    requires WfMem(m) && Occurs(s, k, MemText(m))
    ensures At(s, Skip(s, k)) == Strings.QUOTE
    ensures ReadName(s, k) == Name(StringTokens.Meaning(m.name), k + |MemHead(m.pre, m.name, m.mid)|)
    ensures Occurs(s, k + |MemHead(m.pre, m.name, m.mid)|, ElemText(m.elem))
  {
    OccursConcat(s, k, MemHead(m.pre, m.name, m.mid), ElemText(m.elem));
    HeadComplete(s, k, m.pre, m.name, m.mid);
  }

  lemma {:induction false} HeadComplete(s: bytes, k: nat, pre: bytes, name: seq<StringTokens.Ch>, mid: bytes)
    requires Blank(pre) && Blank(mid) && StringTokens.Wf(name) && Occurs(s, k, MemHead(pre, name, mid))
    ensures At(s, Skip(s, k)) == Strings.QUOTE
    ensures ReadName(s, k) == Name(StringTokens.Meaning(name), k + |MemHead(pre, name, mid)|)
  {
    hide Literal, StringTokens.Meaning, Strings.Complete, Strings.Decode, Strings.Close;
    var q := k + |pre|;
    var a := q + |Literal(name)|;
    HeadParts(s, k, pre, name, mid, q, a);
    LiteralComplete(s, q, name);
    SkipBlank(s, k, pre);
    SkipBlank(s, a, mid);
  }

  lemma {:induction false} HeadParts(s: bytes, k: nat, pre: bytes, name: seq<StringTokens.Ch>, mid: bytes, q: nat,
          a: nat)
    requires Occurs(s, k, MemHead(pre, name, mid)) && q == k + |pre| && a == q + |Literal(name)|
    ensures Occurs(s, k, pre) && Occurs(s, q, Literal(name)) && Occurs(s, a, mid)
    ensures At(s, q) == Strings.QUOTE
    ensures At(s, a + |mid|) == COLON && a + |mid| + 1 == k + |MemHead(pre, name, mid)|
  {
    OccursConcat(s, k, pre, Literal(name) + (mid + [COLON]));
    OccursConcat(s, q, Literal(name), mid + [COLON]);
    OccursConcat(s, a, mid, [COLON]);
    OccursByte(s, a + |mid|, COLON);
    HeadByte(s, q, Literal(name));
  }

  lemma {:induction false} MemMeaningsHead(ms: seq<Mem>, acc: seq<Member>)
    requires |ms| > 0 && (forall i :: 0 <= i < |ms| ==> WfMem(ms[i]))
    ensures |ms| == 1 ==> acc + MemMeanings(ms) == acc + [MemMeaning(ms[0])]
    ensures acc + MemMeanings(ms) == acc + [MemMeaning(ms[0])] + MemMeanings(ms[1..])
  {
  }

  lemma {:induction false} MemsComplete(s: bytes, k: nat, ms: seq<Mem>, acc: seq<Member>)
    requires |ms| > 0 && (forall i :: 0 <= i < |ms| ==> WfMem(ms[i]))
    requires Occurs(s, k, MemsText(ms)) && At(s, k + |MemsText(ms)|) == RBRACE
    ensures ParseMembers(s, k, acc) == Ok(Obj(acc + MemMeanings(ms)), k + |MemsText(ms)| + 1)
    decreases ms
  {
    hide ParseMembers, MemText, Text, MemsText, MemMeanings, MemMeaning, WfMem;
    var j := k + |MemText(ms[0])|;
    MemsHead(s, k, ms);
    MemMeaningsHead(ms, acc);
    MemComplete(s, k, ms[0], acc, j);
    if |ms| > 1 {
      MemsComplete(s, j + 1, ms[1..], acc + [MemMeaning(ms[0])]);
    }
  }

  // A member followed by a comma or the closing brace is read whole.
  lemma {:induction false} MemComplete(s: bytes, k: nat, m: Mem, acc: seq<Member>, j: nat)
    requires WfMem(m) && Occurs(s, k, MemText(m)) && j == k + |MemText(m)| && Separator(At(s, j))
    ensures At(s, j) == COMMA ==> ParseMembers(s, k, acc) == ParseMembers(s, j + 1, acc + [MemMeaning(m)])
    ensures At(s, j) == RBRACE ==> ParseMembers(s, k, acc) == Ok(Obj(acc + [MemMeaning(m)]), j + 1)
    decreases m, 0
  {
    hide ParseMembers, ReadName, ParseValue, Text, ElemText, Literal;
    var next := k + |MemHead(m.pre, m.name, m.mid)|;
    NameComplete(s, k, m);
    MemValueComplete(s, next, m);
    var pos := next + |m.elem.pre| + |Text(m.elem.value)|;
    assert j == next + |ElemText(m.elem)|;
    if At(s, j) == COMMA {
      MemTurn(s, k, acc, MemMeaning(m), next, pos, j);
    } else if At(s, j) == RBRACE {
      LastMemTurn(s, k, acc, MemMeaning(m), next, pos, j);
    }
  }

  // One turn of the member loop: on to the next member, or out at the closing brace.
  lemma {:induction false} MemTurn(s: bytes, k: nat, acc: seq<Member>, m: Member, next: nat, pos: nat, j: nat)
    requires k <= |s| && m.name.Some? && ReadName(s, k) == Name(m.name.value, next)
    requires ParseValue(s, Skip(s, next)) == Ok(m.value, pos) && j == Skip(s, pos) && At(s, j) == COMMA
    ensures ParseMembers(s, k, acc) == ParseMembers(s, j + 1, acc + [m])
  {
    hide ParseValue, ReadName;
  }

  lemma {:induction false} LastMemTurn(s: bytes, k: nat, acc: seq<Member>, m: Member, next: nat, pos: nat, j: nat)
    requires k <= |s| && m.name.Some? && ReadName(s, k) == Name(m.name.value, next)
    requires ParseValue(s, Skip(s, next)) == Ok(m.value, pos) && j == Skip(s, pos) && At(s, j) == RBRACE
    ensures ParseMembers(s, k, acc) == Ok(Obj(acc + [m]), j + 1)
  {
    hide ParseValue, ReadName;
  }

  lemma {:induction false} MemValueComplete(s: bytes, k: nat, m: Mem)
    requires WfMem(m) && Occurs(s, k, ElemText(m.elem)) && Separator(At(s, k + |ElemText(m.elem)|))
    ensures ParseValue(s, Skip(s, k)) == Ok(ElemMeaning(m.elem), k + |m.elem.pre| + |Text(m.elem.value)|)
    ensures Skip(s, k + |m.elem.pre| + |Text(m.elem.value)|) == k + |ElemText(m.elem)|
    decreases m.elem, 1
  {
    ElemComplete(s, k, m.elem);
  }
}
