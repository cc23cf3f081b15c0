// The converse of Grammar: whatever the parser accepts is derivable, so no accepted array or
// object ends in a comma, and every member has its colon.
module Derivations {
  import opened Bytes
  import opened Json
  import opened Parse
  import opened Grammar
  import Numbers
  import Strings
  import StringTokens

  // A literal that runs into the terminator: parse_string accepts it without a closing quote.
  predicate OpenLiteral(s: bytes, i: nat)
    requires i <= |s|
  {
    && At(s, i) == Strings.QUOTE && Strings.Complete(s, i + 1)
    && At(s, Strings.Close(s, i + 1)) == 0
  }

  // t is a derivation of the text from i to j, and of no longer text.
  predicate Derives(s: bytes, i: nat, t: Tree, j: nat) {
    Wf(t) && Occurs(s, i, Text(t)) && j == i + |Text(t)| && Follow(t, s, j)
  }

  lemma {:induction false} BlankSlice(s: bytes, i: nat)
    requires i <= |s|
    ensures Blank(s[i..Skip(s, i)]) && Occurs(s, i, s[i..Skip(s, i)])
  {
    OccursIsSlice(s, i, s[i..Skip(s, i)]);
  }

  lemma {:induction false} DeriveLiteral(s: bytes, i: nat) returns (chs: seq<StringTokens.Ch>)
    requires i < |s| && s[i] == Strings.QUOTE && Strings.Complete(s, i + 1) && !OpenLiteral(s, i)
    ensures StringTokens.Wf(chs) && Occurs(s, i, Literal(chs))
    ensures Strings.Decode(s, i + 1) == StringTokens.Meaning(chs)
    ensures Strings.AfterLiteral(s, i + 1) == i + |Literal(chs)|
  {
    hide Strings.Complete, Strings.Decode, StringTokens.Meaning, StringTokens.Text, StringTokens.Wf;
    chs := StringTokens.Tokens(s, i + 1);
    StringTokens.TokensText(s, i + 1);
    StringTokens.DecodeTokens(s, i + 1, chs);
    OccursBetween(s, i, Strings.QUOTE, StringTokens.Text(chs), Strings.QUOTE);
  }

  lemma {:induction false} DeriveNumber(s: bytes, i: nat) returns (t: Tree)
    requires i < |s| && Numbers.Starts(s[i])
    ensures Derives(s, i, t, i + |Text(t)|) && Wf(t) && ParseNumber(s, i) == Ok(Meaning(t), i + |Text(t)|)
  {
    hide Numbers.Scan, Numbers.Value, Numbers.Wf, Numbers.Text, Numbers.Ends, Numbers.Starts;
    var tok := Numbers.Scan(s, i);
    Numbers.ScanSound(s, i, tok);
    t := GNum(tok);
  }

  // An accepted value is derivable, unless it is an open literal.
  lemma {:induction false} ValueSound(s: bytes, i: nat) returns (t: Tree)
    requires i <= |s| && ParseValue(s, i).Ok? && !OpenLiteral(s, i)
    ensures Derives(s, i, t, ParseValue(s, i).pos) && Wf(t) && ParseValue(s, i).v == Meaning(t)
    decreases |s| - i, 0
  {
    hide ParseElems, ParseMembers, Numbers.Scan, Strings.Decode, Strings.Complete, Strings.Close, Literal,
         OpenLiteral, Derives, Text, Wf, Meaning;
    if i < |s| && s[i] == LBRACKET {
      t := ArraySound(s, i);
    } else if i < |s| && s[i] == LBRACE {
      t := ObjectSound(s, i);
    } else {
      t := LeafSound(s, i);
    }
  }

  lemma {:induction false} LeafSound(s: bytes, i: nat) returns (t: Tree)
    requires i <= |s| && ParseValue(s, i).Ok? && !OpenLiteral(s, i) && At(s, i) != LBRACKET && At(s, i) != LBRACE
    ensures Derives(s, i, t, ParseValue(s, i).pos) && Wf(t) && ParseValue(s, i).v == Meaning(t)
  {
    hide ParseArray, ParseObject, Numbers.Scan, Numbers.Value, Strings.Decode, Strings.Complete, Strings.AfterLiteral,
         OpenLiteral, Derives, Text, Wf, Meaning, Occurs;
    if Occurs(s, i, NULL_WORD) {
      t := GNull;
      WordSound(s, i, t, NULL_WORD);
    } else if Occurs(s, i, FALSE_WORD) {
      t := GFalse;
      WordSound(s, i, t, FALSE_WORD);
    } else if Occurs(s, i, TRUE_WORD) {
      t := GTrue;
      WordSound(s, i, t, TRUE_WORD);
    } else if s[i] == Strings.QUOTE {
      t := StringSound(s, i);
    } else {
      t := DeriveNumber(s, i);
    }
  }

  lemma {:induction false} WordSound(s: bytes, i: nat, t: Tree, word: bytes)
    requires (t.GNull? && word == NULL_WORD) || (t.GFalse? && word == FALSE_WORD) || (t.GTrue? && word == TRUE_WORD)
    requires Occurs(s, i, word)
    ensures Wf(t) && Derives(s, i, t, i + |word|)
    ensures Meaning(t) == if t.GNull? then Null else if t.GFalse? then False else True
  {
    hide Occurs;
  }

  lemma {:induction false} StringSound(s: bytes, i: nat) returns (t: Tree)
    requires i < |s| && s[i] == Strings.QUOTE && Strings.Complete(s, i + 1) && !OpenLiteral(s, i)
    ensures Derives(s, i, t, Strings.AfterLiteral(s, i + 1)) && Wf(t)
      && Meaning(t) == Str(Some(Strings.Decode(s, i + 1)))
  {
    hide Strings.Decode, Strings.Complete, Strings.AfterLiteral, Literal, OpenLiteral, StringTokens.Wf,
         StringTokens.Meaning, Occurs;
    var chs := DeriveLiteral(s, i);
    t := GStr(chs);
  }

  lemma {:induction false} ArraySound(s: bytes, i: nat) returns (t: Tree)
    requires i < |s| && s[i] == LBRACKET && ParseArray(s, i).Ok?
    ensures Derives(s, i, t, ParseArray(s, i).pos) && Wf(t) && ParseArray(s, i).v == Meaning(t)
    decreases |s| - i - 1, 3
  {
    hide ParseElems, ParseValue, Derives, Wf, WfElem, Meaning, ElemsText, ElemMeanings;
    var k := Skip(s, i + 1);
    if At(s, k) == RBRACKET {
      t := EmptyArray(s, i, k);
    } else {
      var es := ElemsSound(s, k, []);
      t := WidenArray(s, i, es);
      ElemMeaningsFrom(es);
    }
  }

  lemma {:induction false} EmptyArray(s: bytes, i: nat, k: nat) returns (t: Tree)
    requires i < |s| && s[i] == LBRACKET && k == Skip(s, i + 1) && At(s, k) == RBRACKET
    ensures Derives(s, i, t, k + 1) && Wf(t) && Meaning(t) == Arr([])
  {
    BlankSlice(s, i + 1);
    t := GArr([], s[i + 1..k]);
    OccursBetween(s, i, LBRACKET, t.ws, RBRACKET);
  }

  // The blank behind the bracket belongs to the first element.
  function WidenElem(ws: bytes, e: Elem): Elem {
    Elem(ws + e.pre, e.value, e.post)
  }

  lemma {:induction false} WidenElems(ws: bytes, es: seq<Elem>, wide: seq<Elem>)
    requires Blank(ws) && |es| > 0 && (forall n :: 0 <= n < |es| ==> WfElem(es[n]))
    requires wide == [WidenElem(ws, es[0])] + es[1..]
    ensures forall n :: 0 <= n < |wide| ==> WfElem(wide[n])
    ensures ElemsText(wide) == ws + ElemsText(es) && ElemMeanings(wide) == ElemMeanings(es)
  {
    assert WfElem(wide[0]);
    assert wide[1..] == es[1..];
    WidenText(ws, es[0]);
    hide ElemText;
    if |es| > 1 {
      var tail := [COMMA] + ElemsText(es[1..]);
      assert (ws + ElemText(es[0])) + tail == ws + (ElemText(es[0]) + tail);
    }
  }

  lemma {:induction false} WidenText(ws: bytes, e: Elem)
    ensures ElemText(WidenElem(ws, e)) == ws + ElemText(e)
  {
  }

  lemma {:induction false} WidenArray(s: bytes, i: nat, es: seq<Elem>) returns (t: Tree)
    requires i < |s| && s[i] == LBRACKET && |es| > 0 && (forall n :: 0 <= n < |es| ==> WfElem(es[n]))
    requires var k := Skip(s, i + 1); Occurs(s, k, ElemsText(es)) && At(s, k + |ElemsText(es)|) == RBRACKET
    ensures Derives(s, i, t, Skip(s, i + 1) + |ElemsText(es)| + 1)
    ensures Wf(t) && Meaning(t) == Arr(ElemMeanings(es))
  {
    hide ElemsText, WfElem, ElemMeanings;
    var ws := s[i + 1..Skip(s, i + 1)];
    var wide := [WidenElem(ws, es[0])] + es[1..];
    BlankSlice(s, i + 1);
    WidenElems(ws, es, wide);
    OccursConcat(s, i + 1, ws, ElemsText(es));
    OccursBetween(s, i, LBRACKET, ElemsText(wide), RBRACKET);
    t := GArr(wide, []);
  }

  // An open literal leaves the cursor on the terminator, where no comma and no colon stands.
  lemma {:induction false} OpenCursor(s: bytes, i: nat)
    requires i <= |s| && OpenLiteral(s, i)
    ensures i < |s| && At(s, Strings.AfterLiteral(s, i + 1)) == 0
    ensures ParseValue(s, i).Ok? && ParseValue(s, i).pos == Strings.AfterLiteral(s, i + 1)
  {
    hide ParseElems, ParseMembers, Numbers.Scan, Strings.Decode;
  }

  lemma {:induction false} NotOpen(s: bytes, k: nat)
    requires k <= |s| && ParseValue(s, k).Ok? && At(s, Skip(s, ParseValue(s, k).pos)) != 0
    ensures !OpenLiteral(s, k)
  {
    hide ParseValue;
    if OpenLiteral(s, k) {
      OpenCursor(s, k);
    }
  }

  // The element at k, with its blanks, up to the comma or bracket at j.
  lemma {:induction false} ElemSound(s: bytes, k: nat, j: nat) returns (e: Elem)
    requires k <= |s| && ParseValue(s, Skip(s, k)).Ok? && j == Skip(s, ParseValue(s, Skip(s, k)).pos)
    requires At(s, j) != 0
    ensures WfElem(e) && Occurs(s, k, ElemText(e)) && j == k + |ElemText(e)|
    ensures ElemMeaning(e) == ParseValue(s, Skip(s, k)).v
    decreases |s| - k, 1
  {
    hide ParseValue, Text, Wf, Meaning, Follow;
    var i := Skip(s, k);
    NotOpen(s, i);
    var t := ValueSound(s, i);
    var pos := ParseValue(s, i).pos;
    BlankSlice(s, k);
    BlankSlice(s, pos);
    e := Elem(s[k..i], t, s[pos..j]);
    OccursConcat(s, i, Text(t), e.post);
    OccursConcat(s, k, e.pre, Text(t) + e.post);
  }

  lemma {:induction false} JoinElems(s: bytes, k: nat, e: Elem, rest: seq<Elem>, j: nat)
    requires Occurs(s, k, ElemText(e)) && j == k + |ElemText(e)| && At(s, j) == COMMA
    requires |rest| > 0 && Occurs(s, j + 1, ElemsText(rest))
    ensures Occurs(s, k, ElemsText([e] + rest)) && k + |ElemsText([e] + rest)| == j + 1 + |ElemsText(rest)|
  {
    hide ElemText;
    assert ([e] + rest)[1..] == rest;
    OccursByte(s, j, COMMA);
    OccursConcat(s, j, [COMMA], ElemsText(rest));
    OccursConcat(s, k, ElemText(e), [COMMA] + ElemsText(rest));
  }

  lemma {:induction false} JoinElemMeanings(e: Elem, rest: seq<Elem>, acc: seq<Value>)
    requires WfElem(e) && forall n :: 0 <= n < |rest| ==> WfElem(rest[n])
    ensures acc + ElemMeanings([e] + rest) == acc + [ElemMeaning(e)] + ElemMeanings(rest)
  {
    assert ([e] + rest)[1..] == rest;
  }

  lemma {:induction false} SingleElem(e: Elem, acc: seq<Value>)
    requires WfElem(e)
    ensures ElemsText([e]) == ElemText(e) && acc + ElemMeanings([e]) == acc + [ElemMeaning(e)]
  {
  }

  lemma {:induction false} ElemsSound(s: bytes, k: nat, acc: seq<Value>) returns (es: seq<Elem>)
    requires k <= |s| && ParseElems(s, k, acc).Ok?
    ensures |es| > 0 && (forall n :: 0 <= n < |es| ==> WfElem(es[n]))
    ensures Occurs(s, k, ElemsText(es)) && At(s, k + |ElemsText(es)|) == RBRACKET
    ensures ParseElems(s, k, acc) == Ok(Arr(acc + ElemMeanings(es)), k + |ElemsText(es)| + 1)
    decreases |s| - k, 2
  {
    hide ParseValue, ElemText, WfElem, ElemMeaning, ElemsText, ElemMeanings;
    var v := ParseValue(s, Skip(s, k));
    var j := Skip(s, v.pos);
    var e := ElemSound(s, k, j);
    if At(s, j) == COMMA {
      var rest := ElemsSound(s, j + 1, acc + [v.v]);
      es := [e] + rest;
      JoinElems(s, k, e, rest, j);
      JoinElemMeanings(e, rest, acc);
    } else {
      es := [e];
      SingleElem(e, acc);
    }
  }

  lemma {:induction false} ObjectSound(s: bytes, i: nat) returns (t: Tree)
    requires i < |s| && s[i] == LBRACE && ParseObject(s, i).Ok?
    ensures Derives(s, i, t, ParseObject(s, i).pos) && Wf(t) && ParseObject(s, i).v == Meaning(t)
    decreases |s| - i - 1, 3
  {
    hide ParseMembers, ParseValue, Derives, Wf, WfMem, Meaning, MemsText, MemMeanings;
    var k := Skip(s, i + 1);
    if At(s, k) == RBRACE {
      t := EmptyObject(s, i, k);
    } else {
      var ms := MemsSound(s, k, []);
      t := WidenObject(s, i, ms);
      MemMeaningsFrom(ms);
    }
  }

  lemma {:induction false} EmptyObject(s: bytes, i: nat, k: nat) returns (t: Tree)
    requires i < |s| && s[i] == LBRACE && k == Skip(s, i + 1) && At(s, k) == RBRACE
    ensures Derives(s, i, t, k + 1) && Wf(t) && Meaning(t) == Obj([])
  {
    BlankSlice(s, i + 1);
    t := GObj([], s[i + 1..k]);
    OccursBetween(s, i, LBRACE, t.ws, RBRACE);
  }

  function WidenMem(ws: bytes, m: Mem): Mem {
    Mem(ws + m.pre, m.name, m.mid, m.elem)
  }

  lemma {:induction false} WidenMems(ws: bytes, ms: seq<Mem>, wide: seq<Mem>)
    requires Blank(ws) && |ms| > 0 && (forall n :: 0 <= n < |ms| ==> WfMem(ms[n]))
    requires wide == [WidenMem(ws, ms[0])] + ms[1..]
    ensures forall n :: 0 <= n < |wide| ==> WfMem(wide[n])
    ensures MemsText(wide) == ws + MemsText(ms) && MemMeanings(wide) == MemMeanings(ms)
  {
    assert WfMem(wide[0]);
    assert wide[1..] == ms[1..];
    WidenMemText(ws, ms[0]);
    hide MemText;
    if |ms| > 1 {
      var tail := [COMMA] + MemsText(ms[1..]);
      assert (ws + MemText(ms[0])) + tail == ws + (MemText(ms[0]) + tail);
    }
  }

  lemma {:induction false} WidenMemText(ws: bytes, m: Mem)
    ensures MemText(WidenMem(ws, m)) == ws + MemText(m)
  {
  }

  lemma {:induction false} WidenObject(s: bytes, i: nat, ms: seq<Mem>) returns (t: Tree)
    requires i < |s| && s[i] == LBRACE && |ms| > 0 && (forall n :: 0 <= n < |ms| ==> WfMem(ms[n]))
    requires var k := Skip(s, i + 1); Occurs(s, k, MemsText(ms)) && At(s, k + |MemsText(ms)|) == RBRACE
    ensures Derives(s, i, t, Skip(s, i + 1) + |MemsText(ms)| + 1)
    ensures Wf(t) && Meaning(t) == Obj(MemMeanings(ms))
  {
    hide MemsText, WfMem, MemMeanings;
    var ws := s[i + 1..Skip(s, i + 1)];
    var wide := [WidenMem(ws, ms[0])] + ms[1..];
    BlankSlice(s, i + 1);
    WidenMems(ws, ms, wide);
    OccursConcat(s, i + 1, ws, MemsText(ms));
    OccursBetween(s, i, LBRACE, MemsText(wide), RBRACE);
    t := GObj(wide, []);
  }

  // The name at k with its blanks and its colon.
  lemma {:induction false} NameSound(s: bytes, k: nat, next: nat)
    returns (pre: bytes, name: seq<StringTokens.Ch>, mid: bytes)
    requires k <= |s| && ReadName(s, k).Name? && next == ReadName(s, k).next
    ensures Blank(pre) && Blank(mid) && StringTokens.Wf(name)
    ensures Occurs(s, k, MemHead(pre, name, mid)) && next == k + |MemHead(pre, name, mid)|
    ensures ReadName(s, k).name == StringTokens.Meaning(name)
  {
    hide Strings.Complete, Strings.Decode, Strings.Close, StringTokens.Meaning, StringTokens.Wf, Literal;
    var q := Skip(s, k);
    var a := Strings.AfterLiteral(s, q + 1);
    var c := Skip(s, a);
    ClosedName(s, q, a);
    name := DeriveLiteral(s, q);
    pre, mid := s[k..q], s[a..c];
    BlankSlice(s, k);
    BlankSlice(s, a);
    JoinHead(s, k, pre, name, mid, q, a, c);
  }

  lemma {:induction false} ClosedName(s: bytes, q: nat, a: nat)
    requires q < |s| && Strings.Complete(s, q + 1)
    requires a == Strings.AfterLiteral(s, q + 1) && At(s, Skip(s, a)) != 0
    ensures !OpenLiteral(s, q)
  {
    hide Strings.Complete, Strings.AfterLiteral, OpenLiteral;
    if OpenLiteral(s, q) {
      OpenCursor(s, q);
    }
  }

  lemma {:induction false} JoinHead(s: bytes, k: nat, pre: bytes, name: seq<StringTokens.Ch>, mid: bytes, q: nat,
          a: nat, c: nat)
    requires Occurs(s, k, pre) && q == k + |pre| && Occurs(s, q, Literal(name)) && a == q + |Literal(name)|
    requires Occurs(s, a, mid) && c == a + |mid| && At(s, c) == COLON
    ensures Occurs(s, k, MemHead(pre, name, mid)) && c + 1 == k + |MemHead(pre, name, mid)|
  {
    hide Literal;
    OccursByte(s, c, COLON);
    OccursConcat(s, a, mid, [COLON]);
    OccursConcat(s, q, Literal(name), mid + [COLON]);
    OccursConcat(s, k, pre, Literal(name) + (mid + [COLON]));
  }

  lemma {:induction false} MemSound(s: bytes, k: nat, j: nat) returns (m: Mem)
    requires k <= |s| && ReadName(s, k).Name?
    requires ParseValue(s, Skip(s, ReadName(s, k).next)).Ok?
    requires j == Skip(s, ParseValue(s, Skip(s, ReadName(s, k).next)).pos) && At(s, j) != 0
    ensures WfMem(m) && Occurs(s, k, MemText(m)) && j == k + |MemText(m)|
    ensures MemMeaning(m) == Member(Some(ReadName(s, k).name), ParseValue(s, Skip(s, ReadName(s, k).next)).v)
    decreases |s| - k, 1
  {
    hide ParseValue, ReadName, Literal, MemHead, Text;
    var next := ReadName(s, k).next;
    var pre, name, mid := NameSound(s, k, next);
    var e := ElemSound(s, next, j);
    hide ParseValue, ReadName;
    m := Mem(pre, name, mid, e);
    OccursConcat(s, k, MemHead(pre, name, mid), ElemText(e));
  }

  lemma {:induction false} JoinMems(s: bytes, k: nat, m: Mem, rest: seq<Mem>, j: nat)
    requires Occurs(s, k, MemText(m)) && j == k + |MemText(m)| && At(s, j) == COMMA
    requires |rest| > 0 && Occurs(s, j + 1, MemsText(rest))
    ensures Occurs(s, k, MemsText([m] + rest)) && k + |MemsText([m] + rest)| == j + 1 + |MemsText(rest)|
  {
    hide MemText;
    assert ([m] + rest)[1..] == rest;
    OccursByte(s, j, COMMA);
    OccursConcat(s, j, [COMMA], MemsText(rest));
    OccursConcat(s, k, MemText(m), [COMMA] + MemsText(rest));
  }

  lemma {:induction false} JoinMemMeanings(m: Mem, rest: seq<Mem>, acc: seq<Member>)
    requires WfMem(m) && forall n :: 0 <= n < |rest| ==> WfMem(rest[n])
    ensures acc + MemMeanings([m] + rest) == acc + [MemMeaning(m)] + MemMeanings(rest)
  {
    assert ([m] + rest)[1..] == rest;
  }

  lemma {:induction false} SingleMem(m: Mem, acc: seq<Member>)
    requires WfMem(m)
    ensures MemsText([m]) == MemText(m) && acc + MemMeanings([m]) == acc + [MemMeaning(m)]
  {
  }

  // One turn of the member loop that was accepted.
  lemma {:induction false} MembersTurn(s: bytes, k: nat, acc: seq<Member>) returns (m: Member, j: nat)
    requires k <= |s| && ParseMembers(s, k, acc).Ok?
    ensures ReadName(s, k).Name? && ParseValue(s, Skip(s, ReadName(s, k).next)).Ok?
    ensures m == Member(Some(ReadName(s, k).name), ParseValue(s, Skip(s, ReadName(s, k).next)).v)
    ensures j == Skip(s, ParseValue(s, Skip(s, ReadName(s, k).next)).pos) && k < j < |s|
    ensures (s[j] == COMMA && ParseMembers(s, k, acc) == ParseMembers(s, j + 1, acc + [m]))
         || (s[j] == RBRACE && ParseMembers(s, k, acc) == Ok(Obj(acc + [m]), j + 1))
  {
    hide ReadName, ParseValue;
    var v := ParseValue(s, Skip(s, ReadName(s, k).next));
    m, j := Member(Some(ReadName(s, k).name), v.v), Skip(s, v.pos);
  }

  lemma {:induction false} MemsSound(s: bytes, k: nat, acc: seq<Member>) returns (ms: seq<Mem>)
    requires k <= |s| && ParseMembers(s, k, acc).Ok?
    ensures |ms| > 0 && (forall n :: 0 <= n < |ms| ==> WfMem(ms[n]))
    ensures Occurs(s, k, MemsText(ms)) && At(s, k + |MemsText(ms)|) == RBRACE
    ensures ParseMembers(s, k, acc) == Ok(Obj(acc + MemMeanings(ms)), k + |MemsText(ms)| + 1)
    decreases |s| - k, 2
  {
    hide ReadName, ParseValue, MemText, WfMem, MemMeaning, MemsText, MemMeanings;
    var member, j := MembersTurn(s, k, acc);
    var m := MemSound(s, k, j);
    hide ParseMembers;
    if s[j] == COMMA {
      var rest := MemsSound(s, j + 1, acc + [member]);
      ms := [m] + rest;
      JoinMems(s, k, m, rest, j);
      JoinMemMeanings(m, rest, acc);
    } else {
      ms := [m];
      SingleMem(m, acc);
    }
  }

  lemma {:induction false} DerivedIsParsed(s: bytes, i: nat, t: Tree, j: nat)
    requires Derives(s, i, t, j)
    ensures Wf(t) && ParseValue(s, i) == Ok(Meaning(t), j)
  {
    hide ParseValue, Text;
    ValueComplete(s, i, t);
  }

  // The parser accepts exactly the derivable texts, with the tree and the cursor of the
  // derivation; open literals are the one exception.
  lemma {:induction false} AcceptsExactly(s: bytes, i: nat, v: Value, j: nat)
    requires i <= |s| && !OpenLiteral(s, i)
    ensures ParseValue(s, i) == Ok(v, j) <==> exists t :: Derives(s, i, t, j) && Wf(t) && Meaning(t) == v
  {
    hide ParseValue, OpenLiteral, Meaning, Derives;
    if ParseValue(s, i) == Ok(v, j) {
      var t := ValueSound(s, i);
    }
    if exists t :: Derives(s, i, t, j) && Wf(t) && Meaning(t) == v {
      var t :| Derives(s, i, t, j) && Wf(t) && Meaning(t) == v;
      DerivedIsParsed(s, i, t, j);
    }
  }

  // The one text accepted without a derivation: a literal that is never closed is a string up
  // to the end of the input.
  lemma {:induction false} OpenLiteralAccepted(s: bytes, i: nat)
    requires i <= |s| && NulFree(s) && OpenLiteral(s, i)
    ensures ParseValue(s, i) == Ok(Str(Some(Strings.Decode(s, i + 1))), |s|)
  {
    hide Strings.Complete, Strings.Decode, Strings.Close, ParseElems, ParseMembers;
  }

  // The texts -, 07, true] and one where true follows the byte 1.
  const LONE_MINUS: bytes := [45]

  const LEADING_ZERO: bytes := [48, 55]

  const TEXT_BEHIND: bytes := [116, 114, 117, 101, 93]

  const CONTROL_BYTE: bytes := [1, 116, 114, 117, 101]

  const MINUS_TOKEN := Numbers.NumTok(true, false, [], [], Numbers.NoExp)

  const ZERO_TOKEN := Numbers.NumTok(false, true, [55], [], Numbers.NoExp)

  // A lone minus sign is a number, a zero may stand before other digits, nothing behind the value
  // is looked at, and every byte up to the space counts as a blank.
  lemma AcceptsMoreThanRfc()
    ensures ParseText(LONE_MINUS) == Ok(Num(0.0), 1)
    ensures ParseText(LEADING_ZERO) == Ok(Num(7.0), 2)
    ensures ParseText(TEXT_BEHIND) == Ok(True, 4)
    ensures ParseText(CONTROL_BYTE) == Ok(True, 5)
  {
    hide ParseText;
    LenientNumber(LONE_MINUS, MINUS_TOKEN, 0);
    assert Numbers.NatOf([55]) == 7;
    LenientNumber(LEADING_ZERO, ZERO_TOKEN, 7);
    BareTrue(TEXT_BEHIND, 0);
    BareTrue(CONTROL_BYTE, 1);
  }

  lemma {:induction false} BareTrue(s: bytes, i: nat)
    requires i + 4 <= |s| && s[i..i + 4] == TRUE_WORD && forall k :: 0 <= k < i ==> IsSpace(s[k])
    ensures Skip(s, 0) == i && Derives(s, i, GTrue, i + 4) && ParseText(s) == Ok(True, i + 4)
  {
    hide ParseValue;
    OccursIsSlice(s, i, TRUE_WORD);
    OccursAt(s, i, TRUE_WORD, 0);
    DerivedIsParsed(s, i, GTrue, i + 4);
  }

  lemma {:induction false} LenientNumber(s: bytes, tok: Numbers.NumTok, n: nat)
    requires Numbers.Wf(tok) && s == Numbers.Text(tok) && tok.exp == Numbers.NoExp && tok.frac == []
    requires Numbers.NatOf(tok.whole) == n && |s| > 0 && Numbers.Starts(s[0])
    requires Numbers.Ends(tok, 0, 0)
    ensures Skip(s, 0) == 0 && Derives(s, 0, GNum(tok), |s|)
    ensures ParseText(s) == Ok(Num(if tok.neg then -(n as real) else n as real), |s|)
  {
    hide ParseValue, Occurs, Numbers.NatOf, Numbers.Pow10, Numbers.Text, Numbers.Ends;
    OccursIsSlice(s, 0, s);
    DerivedIsParsed(s, 0, GNum(tok), |s|);
    assert tok.whole + tok.frac == tok.whole;
    Numbers.SignedInt(tok.neg, n);
  }
}
