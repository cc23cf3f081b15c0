// Where a failed parse leaves the error pointer: exactly at the first error. What stands before
// it is the beginning of a text the parser accepts, and with the byte it points at no text is
// accepted any more, unless that byte begins a keyword or a fraction that is then cut short.
module Failures {
  import opened Bytes
  import opened Json
  import opened Parse
  import opened Grammar
  import opened Derivations
  import Numbers
  import Strings
  import StringTokens

  // What the parser wanted when it gave up: a value; or a comma or a closing bracket behind the
  // value it had read from one position to another; or a name or a colon.
  datatype Rejection = AtValue | AfterValue(from: nat, pos: nat) | AtName

  function Rejected(s: bytes, i: nat): Rejection
    requires i <= |s|
    decreases |s| - i, 0
  {
    if i < |s| && s[i] == LBRACKET then RejectedElem(s, Skip(s, i + 1))
    else if i < |s| && s[i] == LBRACE then RejectedMember(s, Skip(s, i + 1))
    else AtValue
  }

  // At the value that starts at i, or behind it.
  function RejectedItem(s: bytes, i: nat): Rejection
    requires i <= |s|
    decreases |s| - i, 1
  {
    if ParseValue(s, i).Ok? then AfterValue(i, ParseValue(s, i).pos) else Rejected(s, i)
  }

  function RejectedElem(s: bytes, k: nat): Rejection
    requires k <= |s|
    decreases |s| - k, 2
  {
    var e := ParseValue(s, Skip(s, k));
    if e.Ok? && At(s, Skip(s, e.pos)) == COMMA then RejectedElem(s, Skip(s, e.pos) + 1) else RejectedItem(s, Skip(s, k))
  }

  function RejectedMember(s: bytes, k: nat): Rejection
    requires k <= |s|
    decreases |s| - k, 2
  {
    match ReadName(s, k)
    case Name(_, next) =>
      var e := ParseValue(s, Skip(s, next));
      if e.Ok? && At(s, Skip(s, e.pos)) == COMMA then RejectedMember(s, Skip(s, e.pos) + 1)
      else RejectedItem(s, Skip(s, next))
    case _ => AtName
  }

  // The rejected byte may yet belong to an accepted text: it begins a keyword where a value is
  // wanted, or it is a point right behind a number without fraction and exponent.
  predicate GoesOn(s: bytes, r: Rejection, at: nat)
    requires at < |s|
  {
    match r
    case AtValue => s[at] == NULL_WORD[0] || s[at] == FALSE_WORD[0] || s[at] == TRUE_WORD[0]
    case AfterValue(from, pos) => at == pos && s[at] == 46 && from < at && OpenNumber(s, from)
    case AtName => false
  }

  // The number at i has neither a fraction nor an exponent.
  predicate OpenNumber(s: bytes, i: nat)
    requires i < |s|
  {
    Numbers.Starts(s[i]) && |Numbers.Scan(s, i).frac| == 0 && Numbers.Scan(s, i).exp.NoExp?
  }

  // How far the text is to be completed: up to the rejected byte, or through it if it goes on.
  predicate Reach(s: bytes, r: Rejection, at: nat, end: nat) {
    at <= |s| && (end == at || (end == at + 1 <= |s| && GoesOn(s, r, at)))
  }

  lemma PrefixUnder(a: bytes, b: bytes, c: bytes)
    requires b <= c
    ensures a + b <= a + c
  {
  }

  lemma Cut(s: bytes, i: nat, j: nat, k: nat)
    requires i <= j <= k <= |s|
    ensures s[i..k] == s[i..j] + s[j..k]
  {
  }

  // A literal that was read up to at, closed if it was open.
  lemma {:induction false} ViableLiteral(s: bytes, i: nat) returns (chs: seq<StringTokens.Ch>)
    requires NulFree(s) && i < |s| && s[i] == Strings.QUOTE && Strings.Complete(s, i + 1)
    ensures StringTokens.Wf(chs)
    ensures if OpenLiteral(s, i) then Strings.AfterLiteral(s, i + 1) == |s| && s[i..] <= Literal(chs)
            else s[i..Strings.AfterLiteral(s, i + 1)] == Literal(chs)
  {
    hide Strings.Complete, Strings.Decode, StringTokens.Meaning, StringTokens.Text, StringTokens.Wf;
    if OpenLiteral(s, i) {
      chs := StringTokens.Tokens(s, i + 1);
      StringTokens.TokensText(s, i + 1);
      StringTokens.DecodeTokens(s, i + 1, chs);
      OccursIsSlice(s, i + 1, StringTokens.Text(chs));
      assert s[i..] == [Strings.QUOTE] + StringTokens.Text(chs);
    } else {
      chs := DeriveLiteral(s, i);
      OccursIsSlice(s, i, Literal(chs));
    }
  }

  // A value that was rejected at at.
  lemma {:induction false} ViableValue(s: bytes, i: nat, at: nat, end: nat) returns (t: Tree)
    requires NulFree(s) && i <= |s| && ParseValue(s, i) == Fail(at) && Reach(s, Rejected(s, i), at, end)
    ensures i <= at && Wf(t) && s[i..end] <= Text(t)
    decreases |s| - i, 0
  {
    hide ParseElems, ParseMembers, Text, Wf, Literal, RejectedElem, RejectedMember;
    if i < |s| && s[i] == LBRACKET {
      t := ViableArray(s, i, at, end);
    } else if i < |s| && s[i] == LBRACE {
      t := ViableObject(s, i, at, end);
    } else {
      assert at == i;
      WordsWf();
      t := if end == at || s[at] == NULL_WORD[0] then GNull else if s[at] == FALSE_WORD[0] then GFalse else GTrue;
    }
  }

  lemma {:induction false} WordsWf()
    ensures Wf(GNull) && Text(GNull) == NULL_WORD && Wf(GFalse) && Text(GFalse) == FALSE_WORD && Wf(GTrue)
      && Text(GTrue) == TRUE_WORD
  {
  }

  lemma {:induction false} ReadValue(s: bytes, i: nat, at: nat) returns (t: Tree)
    requires NulFree(s) && i <= at <= |s| && ParseValue(s, i).Ok? && ParseValue(s, i).pos == at
    ensures Wf(t) && s[i..at] <= Text(t) && (at < |s| ==> s[i..at] == Text(t))
  {
    hide ParseValue, Text, Wf, Literal;
    if OpenLiteral(s, i) {
      OpenCursor(s, i);
      var chs := ViableLiteral(s, i);
      t := GStr(chs);
      StringText(chs);
    } else {
      t := ValueSound(s, i);
      OccursIsSlice(s, i, Text(t));
    }
  }

  lemma {:induction false} StringText(chs: seq<StringTokens.Ch>)
    ensures Text(GStr(chs)) == Literal(chs) && (Wf(GStr(chs)) <==> StringTokens.Wf(chs))
  {
  }

  // A number that a point may follow, with a fraction.
  lemma {:induction false} LongerNumber(s: bytes, i: nat, at: nat) returns (t: Tree)
    requires i < at < |s| && ParseValue(s, i).Ok? && ParseValue(s, i).pos == at && s[at] == 46 && OpenNumber(s, i)
    ensures Wf(t) && s[i..at + 1] <= Text(t)
  {
    hide ParseElems, ParseMembers, Numbers.Value, Numbers.Scan, Numbers.ScanWhole, Text, Wf;
    var tok := Numbers.Scan(s, i);
    Numbers.ScanSound(s, i, tok);
    OccursIsSlice(s, i, Numbers.Text(tok));
    NoWord(s, i);
    assert at == i + |Numbers.Text(tok)|;
    t := GNum(tok.(frac := [48]));
    PointBehind(tok);
    assert s[i..at + 1] == s[i..at] + [46];
  }

  lemma {:induction false} NoWord(s: bytes, i: nat)
    requires i < |s| && Numbers.Starts(s[i])
    ensures !Occurs(s, i, NULL_WORD) && !Occurs(s, i, FALSE_WORD) && !Occurs(s, i, TRUE_WORD)
  {
    assert s[i] != NULL_WORD[0] && s[i] != FALSE_WORD[0] && s[i] != TRUE_WORD[0];
  }

  lemma {:induction false} PointBehind(tok: Numbers.NumTok)
    requires Numbers.Wf(tok) && |tok.frac| == 0 && tok.exp.NoExp?
    ensures var t := GNum(tok.(frac := [48])); Wf(t) && Numbers.Text(tok) + [46] <= Text(t)
  {
    var u := tok.(frac := [48]);
    var body := Numbers.SignText(tok.neg) + Numbers.ZeroText(tok.zero) + tok.whole;
    assert Numbers.Text(tok) == body + [] + [] == body;
    assert Numbers.Text(u) == body + ([46] + [48]) + [] == (body + [46]) + [48];
  }

  // An element whose value was rejected at at, or which was read up to at.
  lemma {:induction false} ViableElem(s: bytes, k: nat, at: nat, end: nat) returns (e: Elem)
    requires NulFree(s) && k <= |s| && Reach(s, RejectedItem(s, Skip(s, k)), at, end)
    requires var v := ParseValue(s, Skip(s, k)); v == Fail(at) || (v.Ok? && at == Skip(s, v.pos))
    ensures k <= at <= |s| && WfElem(e) && s[k..end] <= ElemText(e)
    decreases |s| - k, 1
  {
    hide ParseValue, Text, Wf, Rejected, OpenNumber;
    var i, v := Skip(s, k), ParseValue(s, Skip(s, k));
    BlankSlice(s, k);
    var pre := s[k..i];
    if v.Ok? && end == at {
      var t := ReadValue(s, i, v.pos);
      BlankSlice(s, v.pos);
      e := Elem(pre, t, s[v.pos..at]);
      ReadElem(s, k, i, v.pos, at, e);
    } else {
      var t;
      if v.Ok? {
        t := LongerNumber(s, i, at);
      } else {
        t := ViableValue(s, i, at, end);
      }
      e := Elem(pre, t, []);
      Cut(s, k, i, end);
      assert Text(t) + [] == Text(t);
      PrefixUnder(pre, s[i..end], Text(t));
    }
  }

  lemma {:induction false} ReadElem(s: bytes, k: nat, i: nat, pos: nat, at: nat, e: Elem)
    requires k <= i <= pos <= at <= |s| && e.pre == s[k..i] && e.post == s[pos..at]
    requires s[i..pos] <= Text(e.value) && (pos < |s| ==> s[i..pos] == Text(e.value))
    ensures s[k..at] <= ElemText(e)
  {
    hide Text;
    Cut(s, k, i, at);
    Cut(s, i, pos, at);
    if pos == |s| {
      assert e.post == [] && Text(e.value) + [] == Text(e.value);
      assert s[i..at] == s[i..pos];
    }
    PrefixUnder(e.pre, s[i..at], Text(e.value) + e.post);
  }

  lemma {:induction false} ViableArray(s: bytes, i: nat, at: nat, end: nat) returns (t: Tree)
    requires NulFree(s) && i < |s| && s[i] == LBRACKET && ParseArray(s, i) == Fail(at)
    requires Reach(s, Rejected(s, i), at, end)
    ensures i <= at <= |s| && Wf(t) && s[i..end] <= Text(t)
    decreases |s| - i - 1, 3
  {
    hide ParseElems, ElemsText, WfElem, ElemText, RejectedElem;
    var k := Skip(s, i + 1);
    var es := ViableElems(s, k, [], at, end);
    var ws := s[i + 1..k];
    BlankSlice(s, i + 1);
    var wide := [WidenElem(ws, es[0])] + es[1..];
    WidenElems(ws, es, wide);
    t := GArr(wide, []);
    Cut(s, i + 1, k, end);
    PrefixUnder(ws, s[k..end], ElemsText(es));
    assert s[i..end] == [LBRACKET] + s[i + 1..end];
    assert Text(t) == [LBRACKET] + (ElemsText(wide) + [RBRACKET]);
  }

  lemma {:induction false} ViableElems(s: bytes, k: nat, acc: seq<Value>, at: nat, end: nat) returns (es: seq<Elem>)
    requires NulFree(s) && k <= |s| && ParseElems(s, k, acc) == Fail(at) && Reach(s, RejectedElem(s, k), at, end)
    ensures k <= at <= |s| && |es| > 0 && (forall n :: 0 <= n < |es| ==> WfElem(es[n])) && s[k..end] <= ElemsText(es)
    decreases |s| - k, 2
  {
    hide ParseValue, ParseElems, RejectedElem, ElemText, ElemsText, WfElem, RejectedItem, GoesOn, Occurs;
    ElemsFailTurn(s, k, acc, at);
    var v := ParseValue(s, Skip(s, k));
    if v.Ok? && At(s, Skip(s, v.pos)) == COMMA {
      var j := Skip(s, v.pos);
      var e := ElemSound(s, k, j);
      var rest := ViableElems(s, j + 1, acc + [v.v], at, end);
      es := [e] + rest;
      JoinedElems(s, k, j, end, e, rest);
    } else {
      var e := ViableElem(s, k, at, end);
      es := [e];
      assert [e] == [e] + [];
      ElemsTextOf(e, []);
    }
  }

  // One turn of a list loop that failed: later on, or at this element.
  lemma {:induction false} ElemsFailTurn(s: bytes, k: nat, acc: seq<Value>, at: nat)
    requires k <= |s| && ParseElems(s, k, acc) == Fail(at)
    ensures var v := ParseValue(s, Skip(s, k));
            if v.Ok? && At(s, Skip(s, v.pos)) == COMMA then
              && ParseElems(s, Skip(s, v.pos) + 1, acc + [v.v]) == Fail(at)
              && RejectedElem(s, k) == RejectedElem(s, Skip(s, v.pos) + 1)
            else
              && (v == Fail(at) || (v.Ok? && at == Skip(s, v.pos) && At(s, at) != RBRACKET))
              && RejectedElem(s, k) == RejectedItem(s, Skip(s, k))
  {
    hide ParseValue, RejectedItem;
  }

  lemma {:induction false} MembersFailTurn(s: bytes, k: nat, acc: seq<Member>, at: nat)
    requires k <= |s| && ParseMembers(s, k, acc) == Fail(at)
    ensures match ReadName(s, k)
            case NoName(p) => p == at && RejectedMember(s, k) == AtName
            case NameOverrun => false
            case Name(name, next) =>
              var v := ParseValue(s, Skip(s, next));
              if v.Ok? && At(s, Skip(s, v.pos)) == COMMA then
                && ParseMembers(s, Skip(s, v.pos) + 1, acc + [Member(Some(name), v.v)]) == Fail(at)
                && RejectedMember(s, k) == RejectedMember(s, Skip(s, v.pos) + 1)
              else
                && (v == Fail(at) || (v.Ok? && at == Skip(s, v.pos) && At(s, at) != RBRACE))
                && RejectedMember(s, k) == RejectedItem(s, Skip(s, next))
  {
    hide ParseValue, ReadName, RejectedItem;
  }

  lemma {:induction false} ElemsTextOf(e: Elem, rest: seq<Elem>)
    ensures ElemsText([e] + rest) == if |rest| == 0 then ElemText(e) else ElemText(e) + ([COMMA] + ElemsText(rest))
  {
    assert ([e] + rest)[1..] == rest;
  }

  lemma {:induction false} JoinedElems(s: bytes, k: nat, j: nat, end: nat, e: Elem, rest: seq<Elem>)
    requires WfElem(e) && Occurs(s, k, ElemText(e)) && j == k + |ElemText(e)| < end <= |s| && s[j] == COMMA
    requires |rest| > 0 && (forall n :: 0 <= n < |rest| ==> WfElem(rest[n])) && s[j + 1..end] <= ElemsText(rest)
    ensures var es := [e] + rest; (forall n :: 0 <= n < |es| ==> WfElem(es[n])) && s[k..end] <= ElemsText(es)
  {
    hide ElemText, ElemsText, WfElem;
    OccursIsSlice(s, k, ElemText(e));
    CommaBehind(s, k, j, end, ElemText(e), ElemsText(rest));
    ElemsTextOf(e, rest);
  }

  lemma {:induction false} JoinedMems(s: bytes, k: nat, j: nat, end: nat, m: Mem, rest: seq<Mem>)
    requires WfMem(m) && Occurs(s, k, MemText(m)) && j == k + |MemText(m)| < end <= |s| && s[j] == COMMA
    requires |rest| > 0 && (forall n :: 0 <= n < |rest| ==> WfMem(rest[n])) && s[j + 1..end] <= MemsText(rest)
    ensures var ms := [m] + rest; (forall n :: 0 <= n < |ms| ==> WfMem(ms[n])) && s[k..end] <= MemsText(ms)
  {
    hide MemText, MemsText, WfMem;
    OccursIsSlice(s, k, MemText(m));
    CommaBehind(s, k, j, end, MemText(m), MemsText(rest));
    MemsTextOf(m, rest);
  }

  lemma {:induction false} MemsTextOf(m: Mem, rest: seq<Mem>)
    ensures MemsText([m] + rest) == if |rest| == 0 then MemText(m) else MemText(m) + ([COMMA] + MemsText(rest))
  {
    assert ([m] + rest)[1..] == rest;
  }

  lemma CommaBehind(s: bytes, k: nat, j: nat, end: nat, item: bytes, rest: bytes)
    requires k <= j < end <= |s| && s[k..j] == item && s[j] == COMMA && s[j + 1..end] <= rest
    ensures s[k..end] <= item + ([COMMA] + rest)
  {
    Cut(s, k, j, end);
    assert s[j..end] == [COMMA] + s[j + 1..end];
  }

  lemma {:induction false} ViableObject(s: bytes, i: nat, at: nat, end: nat) returns (t: Tree)
    requires NulFree(s) && i < |s| && s[i] == LBRACE && ParseObject(s, i) == Fail(at)
    requires Reach(s, Rejected(s, i), at, end)
    ensures i <= at <= |s| && Wf(t) && s[i..end] <= Text(t)
    decreases |s| - i - 1, 3
  {
    hide ParseMembers, MemsText, WfMem, MemText, RejectedMember;
    var k := Skip(s, i + 1);
    var ms := ViableMems(s, k, [], at, end);
    var ws := s[i + 1..k];
    BlankSlice(s, i + 1);
    var wide := [WidenMem(ws, ms[0])] + ms[1..];
    WidenMems(ws, ms, wide);
    t := GObj(wide, []);
    Cut(s, i + 1, k, end);
    PrefixUnder(ws, s[k..end], MemsText(ms));
    assert s[i..end] == [LBRACE] + s[i + 1..end];
    assert Text(t) == [LBRACE] + (MemsText(wide) + [RBRACE]);
  }

  // A name that is missing, or that no colon follows.
  lemma {:induction false} ViableHead(s: bytes, k: nat, at: nat) returns (m: Mem)
    requires NulFree(s) && k <= |s| && ReadName(s, k) == NoName(at)
    ensures k <= at <= |s| && WfMem(m) && s[k..at] <= MemText(m)
  {
    hide Strings.Complete, Strings.Decode, Strings.Close, StringTokens.Wf, Literal;
    var q := Skip(s, k);
    BlankSlice(s, k);
    var pre, name, mid := s[k..q], [], [];
    NoChars();
    if At(s, q) == Strings.QUOTE {
      var a := Strings.AfterLiteral(s, q + 1);
      BlankSlice(s, a);
      name := ViableLiteral(s, q);
      Cut(s, k, q, at);
      if !OpenLiteral(s, q) {
        mid := s[a..at];
        Cut(s, q, a, at);
      }
    }
    m := Mem(pre, name, mid, Elem([], GNull, []));
    HeadUnder(s[k..at], m);
  }

  lemma {:induction false} NoChars()
    ensures StringTokens.Wf([])
  {
  }

  lemma {:induction false} HeadUnder(w: bytes, m: Mem)
    requires w <= m.pre + Literal(m.name) || w == m.pre || w == m.pre + (Literal(m.name) + m.mid)
    ensures w <= MemText(m)
  {
    hide Literal, ElemText;
    var l, c, e := Literal(m.name), m.mid + [COLON], ElemText(m.elem);
    assert MemText(m) == (m.pre + l) + (c + e);
    assert MemText(m) == (m.pre + (l + m.mid)) + ([COLON] + e);
    assert MemText(m) == m.pre + (l + (c + e));
  }

  lemma NameEnds(s: bytes, at: nat, end: nat)
    requires Reach(s, AtName, at, end)
    ensures end == at
  {
  }

  lemma {:induction false} ViableMems(s: bytes, k: nat, acc: seq<Member>, at: nat, end: nat) returns (ms: seq<Mem>)
    requires NulFree(s) && k <= |s| && ParseMembers(s, k, acc) == Fail(at) && Reach(s, RejectedMember(s, k), at, end)
    ensures k <= at <= |s| && |ms| > 0 && (forall n :: 0 <= n < |ms| ==> WfMem(ms[n])) && s[k..end] <= MemsText(ms)
    decreases |s| - k, 2
  {
    hide ParseValue, ParseMembers, RejectedMember, ReadName, MemText, MemsText, WfMem, RejectedItem, Occurs, GoesOn;
    MembersFailTurn(s, k, acc, at);
    var name := ReadName(s, k);
    if name.NoName? {
      NameEnds(s, at, end);
      var m := ViableHead(s, k, at);
      ms := [m];
      assert [m] == [m] + [];
      MemsTextOf(m, []);
      return;
    }
    var v := ParseValue(s, Skip(s, name.next));
    if v.Ok? && At(s, Skip(s, v.pos)) == COMMA {
      var j := Skip(s, v.pos);
      var m := MemSound(s, k, j);
      var rest := ViableMems(s, j + 1, acc + [Member(Some(name.name), v.v)], at, end);
      ms := [m] + rest;
      JoinedMems(s, k, j, end, m, rest);
    } else {
      var m := ViableMember(s, k, at, end);
      ms := [m];
      assert [m] == [m] + [];
      MemsTextOf(m, []);
    }
  }

  lemma {:induction false} ViableMember(s: bytes, k: nat, at: nat, end: nat) returns (m: Mem)
    requires NulFree(s) && k <= |s| && ReadName(s, k).Name?
    requires Reach(s, RejectedItem(s, Skip(s, ReadName(s, k).next)), at, end)
    requires var v := ParseValue(s, Skip(s, ReadName(s, k).next)); v == Fail(at) || (v.Ok? && at == Skip(s, v.pos))
    ensures k <= at <= |s| && WfMem(m) && s[k..end] <= MemText(m)
    decreases |s| - k, 1
  {
    hide ParseValue, ReadName, ElemText, WfElem, MemHead, RejectedItem, GoesOn;
    var next := ReadName(s, k).next;
    var pre, name, mid := NameSound(s, k, next);
    var e := ViableElem(s, next, at, end);
    m := Mem(pre, name, mid, e);
    OccursIsSlice(s, k, MemHead(pre, name, mid));
    Cut(s, k, next, end);
    PrefixUnder(MemHead(pre, name, mid), s[next..end], ElemText(e));
  }

  // What stands before the error position begins a text that is accepted whole, and so does
  // what stands before the next byte if the rejected one goes on.
  lemma {:induction false} FailurePrefix(s: bytes, at: nat, end: nat) returns (w: bytes)
    requires NulFree(s) && ParseText(s) == Fail(at) && Reach(s, Rejected(s, Skip(s, 0)), at, end)
    ensures at <= |s| && s[..end] <= w && ParseText(w).Ok? && ParseText(w).pos == |w|
  {
    hide ParseValue, Text, Wf, Follow, Meaning, Rejected, GoesOn;
    var i := Skip(s, 0);
    var t := ViableValue(s, i, at, end);
    var pre := s[0..i];
    w := pre + Text(t);
    Cut(s, 0, i, end);
    PrefixUnder(pre, s[i..end], Text(t));
    BlankSlice(s, 0);
    FirstByte(t);
    OccursIsSlice(w, 0, pre);
    OccursIsSlice(w, i, Text(t));
    HeadByte(w, i, Text(t));
    SkipBlank(w, 0, pre);
    EndFollows(t, w);
    ValueComplete(w, i, t);
  }

  lemma EndFollows(t: Tree, w: bytes)
    ensures Follow(t, w, |w|)
  {
  }

  // ---- With the rejected byte no text goes on ----

  // The texts agree up to and including the byte at at.
  predicate Agree(s: bytes, w: bytes, at: nat) {
    at < |s| && at < |w| && forall k :: 0 <= k <= at ==> s[k] == w[k]
  }

  lemma {:induction false} SkipSame(s: bytes, w: bytes, at: nat, i: nat)
    requires Agree(s, w, at) && i <= |s| && Skip(s, i) <= at
    ensures i <= |w| && Skip(w, i) == Skip(s, i)
  {
    assert forall k :: i <= k < Skip(s, i) ==> IsSpace(w[k]);
    assert !IsSpace(At(w, Skip(s, i)));
  }

  lemma {:induction false} OccursSame(s: bytes, w: bytes, at: nat, i: nat, x: bytes)
    requires Agree(s, w, at) && i + |x| <= at + 1 && Occurs(s, i, x)
    ensures Occurs(w, i, x)
  {
    OccursIsSlice(s, i, x);
    OccursIsSlice(w, i, x);
    assert s[i..i + |x|] == w[i..i + |x|];
  }

  // A value read in s up to pos is read in w as well.
  lemma {:induction false} ValueSame(s: bytes, w: bytes, at: nat, q: nat)
    requires NulFree(s) && Agree(s, w, at) && q <= |s| && ParseValue(s, q).Ok? && ParseValue(s, q).pos <= at
    requires !GoesOn(s, AfterValue(q, ParseValue(s, q).pos), at)
    ensures ParseValue(w, q) == ParseValue(s, q)
  {
    hide ParseValue, Text, Wf, GoesOn, Follow;
    var pos := ParseValue(s, q).pos;
    if OpenLiteral(s, q) {
      OpenCursor(s, q);
      assert false;
    }
    var t := ValueSound(s, q);
    OccursSame(s, w, at, q, Text(t));
    FollowSame(s, w, at, q, t, pos);
    ValueComplete(w, q, t);
  }

  lemma FollowSame(s: bytes, w: bytes, at: nat, q: nat, t: Tree, pos: nat)
    requires Agree(s, w, at) && q < pos <= at && Derives(s, q, t, pos) && !GoesOn(s, AfterValue(q, pos), at)
    ensures Follow(t, w, pos)
  {
    hide Text, Wf, Numbers.Scan, Numbers.Text, Numbers.Wf;
    if t.GNum? {
      NumberText(t.tok);
      Numbers.ScanComplete(s, q, t.tok);
      Numbers.TextNonEmpty(t.tok);
      HeadByte(s, q, Numbers.Text(t.tok));
      hide Numbers.EndsExp, Numbers.EndsWhole;
    }
  }

  lemma {:induction false} NumberText(tok: Numbers.NumTok)
    ensures Text(GNum(tok)) == Numbers.Text(tok) && (Wf(GNum(tok)) <==> Numbers.Wf(tok))
  {
  }

  // A name, read or missing, is the same in w.
  lemma NameSame(s: bytes, w: bytes, at: nat, k: nat)
    requires NulFree(s) && Agree(s, w, at) && k <= |s|
    requires match ReadName(s, k) case Name(_, next) => next <= at case NoName(p) => p == at case NameOverrun => false
    ensures k <= |w| && ReadName(w, k) == ReadName(s, k)
  {
    hide Strings.Complete, Strings.Decode, Strings.AfterLiteral;
    var q := Skip(s, k);
    SkipSame(s, w, at, k);
    if At(s, q) == Strings.QUOTE {
      LiteralSame(s, w, at, q);
      SkipSame(s, w, at, Strings.AfterLiteral(s, q + 1));
    }
  }

  lemma {:induction false} LiteralSame(s: bytes, w: bytes, at: nat, q: nat)
    requires NulFree(s) && Agree(s, w, at) && q < |s| && s[q] == Strings.QUOTE && Strings.Complete(s, q + 1)
    requires Strings.AfterLiteral(s, q + 1) <= at
    ensures q < |w| && Strings.Complete(w, q + 1) && Strings.AfterLiteral(w, q + 1) == Strings.AfterLiteral(s, q + 1)
    ensures Strings.Decode(w, q + 1) == Strings.Decode(s, q + 1)
  {
    hide Strings.Complete, Strings.Decode, Strings.AfterLiteral, StringTokens.Wf, StringTokens.Meaning, Literal,
         OpenLiteral;
    if OpenLiteral(s, q) {
      OpenCursor(s, q);
      assert false;
    }
    var chs := DeriveLiteral(s, q);
    OccursSame(s, w, at, q, Literal(chs));
    LiteralComplete(w, q, chs);
  }

  lemma {:induction false} ValueFailSame(s: bytes, w: bytes, at: nat, i: nat)
    requires NulFree(s) && Agree(s, w, at) && i <= |s| && ParseValue(s, i) == Fail(at) && !GoesOn(s, Rejected(s, i), at)
    ensures i <= |w| && ParseValue(w, i) == Fail(at)
    decreases |s| - i, 0
  {
    hide ParseElems, ParseMembers, Numbers.Scan, Strings.Complete, Strings.Decode, RejectedElem, RejectedMember;
    assert s[i] == w[i];
    if s[i] == LBRACKET {
      SkipSame(s, w, at, i + 1);
      ElemsFailSame(s, w, at, Skip(s, i + 1), []);
    } else if s[i] == LBRACE {
      SkipSame(s, w, at, i + 1);
      MembersFailSame(s, w, at, Skip(s, i + 1), []);
    }
  }

  // A value that was read and what follows it, up to the comma or the rejected byte at j.
  lemma {:induction false} ItemSame(s: bytes, w: bytes, at: nat, q: nat, j: nat)
    requires NulFree(s) && Agree(s, w, at) && q <= |s| && ParseValue(s, q).Ok?
    requires j == Skip(s, ParseValue(s, q).pos) <= at
    requires j == at ==> !GoesOn(s, AfterValue(q, ParseValue(s, q).pos), at)
    ensures q <= |w| && ParseValue(w, q) == ParseValue(s, q) && Skip(w, ParseValue(s, q).pos) == j
      && At(w, j) == At(s, j)
  {
    hide ParseValue, OpenNumber;
    ValueSame(s, w, at, q);
    SkipSame(s, w, at, ParseValue(s, q).pos);
  }

  lemma {:induction false} ElemsBy(s: bytes, k: nat, acc: seq<Value>, e: Result, j: nat)
    requires k <= |s| && e == ParseValue(s, Skip(s, k)) && (e.Ok? ==> j == Skip(s, e.pos))
    ensures e.Fail? ==> ParseElems(s, k, acc) == e
    ensures e.Ok? && At(s, j) == COMMA ==> ParseElems(s, k, acc) == ParseElems(s, j + 1, acc + [e.v])
    ensures e.Ok? && At(s, j) != COMMA && At(s, j) != RBRACKET ==> ParseElems(s, k, acc) == Fail(j)
  {
    hide ParseValue;
  }

  lemma {:induction false} ElemsFailSame(s: bytes, w: bytes, at: nat, k: nat, acc: seq<Value>)
    requires NulFree(s) && Agree(s, w, at) && k <= |s| && ParseElems(s, k, acc) == Fail(at)
    requires !GoesOn(s, RejectedElem(s, k), at)
    ensures k <= |w| && ParseElems(w, k, acc) == Fail(at)
    decreases |s| - k, 1
  {
    hide ParseValue, ParseElems, Rejected, RejectedElem, GoesOn;
    ElemsFailTurn(s, k, acc, at);
    var q := Skip(s, k);
    SkipSame(s, w, at, k);
    var e := ParseValue(s, q);
    if e.Fail? {
      ValueFailSame(s, w, at, q);
      ElemsBy(w, k, acc, e, 0);
    } else {
      var j := Skip(s, e.pos);
      if At(s, j) == COMMA {
        ElemsFailSame(s, w, at, j + 1, acc + [e.v]);
      }
      ItemSame(s, w, at, q, j);
      ElemsBy(w, k, acc, e, j);
    }
  }

  lemma {:induction false} MembersBy(s: bytes, k: nat, acc: seq<Member>, name: bytes, next: nat, e: Result, j: nat)
    requires k <= |s| && ReadName(s, k) == Name(name, next) && e == ParseValue(s, Skip(s, next))
      && (e.Ok? ==> j == Skip(s, e.pos))
    ensures e.Fail? ==> ParseMembers(s, k, acc) == e
    ensures e.Ok? && At(s, j) == COMMA ==>
      ParseMembers(s, k, acc) == ParseMembers(s, j + 1, acc + [Member(Some(name), e.v)])
    ensures e.Ok? && At(s, j) != COMMA && At(s, j) != RBRACE ==> ParseMembers(s, k, acc) == Fail(j)
  {
    hide ParseValue, ReadName;
  }

  lemma {:induction false} NoNameBy(s: bytes, k: nat, acc: seq<Member>, at: nat)
    requires k <= |s| && ReadName(s, k) == NoName(at)
    ensures ParseMembers(s, k, acc) == Fail(at)
  {
    hide ReadName;
  }

  lemma {:induction false} MembersFailSame(s: bytes, w: bytes, at: nat, k: nat, acc: seq<Member>)
    requires NulFree(s) && Agree(s, w, at) && k <= |s| && ParseMembers(s, k, acc) == Fail(at)
    requires !GoesOn(s, RejectedMember(s, k), at)
    ensures k <= |w| && ParseMembers(w, k, acc) == Fail(at)
    decreases |s| - k, 1
  {
    hide ParseValue, ReadName, ParseMembers, Rejected, RejectedMember, GoesOn;
    MembersFailTurn(s, k, acc, at);
    var name := ReadName(s, k);
    NameSame(s, w, at, k);
    if name.NoName? {
      NoNameBy(w, k, acc, at);
      return;
    }
    var q := Skip(s, name.next);
    SkipSame(s, w, at, name.next);
    var e := ParseValue(s, q);
    if e.Fail? {
      ValueFailSame(s, w, at, q);
      MembersBy(w, k, acc, name.name, name.next, e, 0);
    } else {
      var j := Skip(s, e.pos);
      if At(s, j) == COMMA {
        MembersFailSame(s, w, at, j + 1, acc + [Member(Some(name.name), e.v)]);
      }
      ItemSame(s, w, at, q, j);
      MembersBy(w, k, acc, name.name, name.next, e, j);
    }
  }

  // Every text that begins like s up to the rejected byte is rejected at that byte.
  lemma {:induction false} FailureStays(s: bytes, at: nat, w: bytes)
    requires NulFree(s) && ParseText(s) == Fail(at) && at < |s| && !GoesOn(s, Rejected(s, Skip(s, 0)), at)
    requires s[..at + 1] <= w
    ensures ParseText(w) == Fail(at)
  {
    hide ParseValue, Rejected, GoesOn;
    assert forall k :: 0 <= k <= at ==> s[k] == s[..at + 1][k] == w[k];
    SkipSame(s, w, at, 0);
    ValueFailSame(s, w, at, Skip(s, 0));
  }

  // The error position is exact: an accepted text goes on through the byte there if and only if
  // the byte begins a keyword where a value is wanted, or a fraction behind a number without one.
  lemma {:induction false} FailureExact(s: bytes, at: nat)
    requires NulFree(s) && ParseText(s) == Fail(at) && at < |s|
    ensures (exists w :: s[..at + 1] <= w && ParseText(w).Ok?) <==> GoesOn(s, Rejected(s, Skip(s, 0)), at)
  {
    hide ParseText, Rejected, GoesOn;
    if GoesOn(s, Rejected(s, Skip(s, 0)), at) {
      var w := FailurePrefix(s, at, at + 1);
    } else if exists w :: s[..at + 1] <= w && ParseText(w).Ok? {
      var w :| s[..at + 1] <= w && ParseText(w).Ok?;
      FailureStays(s, at, w);
    }
  }

  // A byte that begins neither a keyword nor a fraction ends every hope.
  lemma OtherBytesFail(s: bytes, at: nat, w: bytes)
    requires NulFree(s) && ParseText(s) == Fail(at) && at < |s| && s[at] !in {46, 102, 110, 116} && s[..at + 1] <= w
    ensures ParseText(w) == Fail(at)
  {
    hide ParseText, Rejected;
    FailureStays(s, at, w);
  }
}
