// Printed text is safe to parse: whatever a tree holds, null texts included, no escape in its
// text is cut short, so the decoder never leaves the buffer.
module Overruns {
  import opened Bytes
  import opened Json
  import opened Parse
  import Numbers
  import Rendering
  import Strings
  import StringTokens

  // Every backslash begins a complete escape.
  predicate Regular(s: bytes)
    decreases |s|
  {
    if |s| == 0 then true
    else if s[0] != Strings.BACKSLASH then Regular(s[1..])
    else if |s| == 1 || s[1] == 0 then false
    else if s[1] != Strings.LOWER_U then Regular(s[2..])
    else Strings.Hex4(s, 2) && Regular(s[6..])
  }

  lemma {:induction false} RegularConcat(a: bytes, b: bytes)
    requires Regular(a) && Regular(b)
    ensures Regular(a + b)
    decreases |a|
  {
    if |a| == 0 {
      assert a + b == b;
    } else {
      var n := if a[0] != Strings.BACKSLASH then 1 else if a[1] != Strings.LOWER_U then 2 else 6;
      RegularConcat(a[n..], b);
      assert (a + b)[n..] == a[n..] + b;
    }
  }

  lemma {:induction false} PlainRegular(w: bytes)
    requires forall k :: 0 <= k < |w| ==> w[k] != Strings.BACKSLASH
    ensures Regular(w)
    decreases |w|
  {
    if |w| > 0 {
      PlainRegular(w[1..]);
    }
  }

  lemma {:induction false} ChRegular(b: byte)
    requires b != 0
    ensures Regular(StringTokens.ChText(StringTokens.QuoteCh(b)))
  {
    var w := StringTokens.ChText(StringTokens.QuoteCh(b));
    if StringTokens.Plain(b) {
      assert w[1..] == [];
    } else if |w| == 2 {
      assert w[2..] == [];
    } else {
      assert w[6..] == [];
    }
  }

  lemma {:induction false} BodyRegular(t: bytes)
    requires NulFree(t)
    ensures Regular(StringTokens.QuoteBody(t))
    decreases |t|
  {
    hide Regular, StringTokens.ChText, StringTokens.QuoteCh;
    if |t| == 0 {
      PlainRegular([]);
    } else {
      ChRegular(t[0]);
      BodyRegular(t[1..]);
      RegularConcat(StringTokens.ChText(StringTokens.QuoteCh(t[0])), StringTokens.QuoteBody(t[1..]));
    }
  }

  lemma {:induction false} TextRegular(t: Option<bytes>)
    requires CleanText(t)
    ensures Regular(PrintText(t))
  {
    hide Regular, StringTokens.QuoteBody;
    if t.Some? {
      BodyRegular(t.value);
      PlainRegular([Strings.QUOTE]);
      RegularConcat([Strings.QUOTE], StringTokens.QuoteBody(t.value));
      RegularConcat([Strings.QUOTE] + StringTokens.QuoteBody(t.value), [Strings.QUOTE]);
    } else {
      PlainRegular([]);
    }
  }

  lemma {:induction false} NumberRegular(r: real)
    ensures Regular(Rendering.Render(r))
  {
    hide Regular, Rendering.RenderTok;
    Rendering.RenderIsRfc(r);
    TokenPlain(Rendering.RenderTok(r));
    PlainRegular(Rendering.Render(r));
  }

  lemma {:induction false} TokenPlain(tok: Numbers.NumTok)
    requires Numbers.Rfc(tok)
    ensures forall k :: 0 <= k < |Numbers.Text(tok)| ==> Numbers.Text(tok)[k] != Strings.BACKSLASH
  {
  }

  lemma {:induction false} TabsRegular(n: nat)
    ensures Regular(Tabs(n))
  {
    hide Regular;
    if n == 0 {
      PlainRegular([]);
    } else {
      TabsRegular(n - 1);
      PlainRegular([TAB]);
      RegularConcat([TAB], Tabs(n - 1));
    }
  }

  lemma {:induction false} PrintRegular(v: Value, depth: nat, fmt: bool)
    requires Clean(v)
    ensures Regular(Print(v, depth, fmt))
    decreases v
  {
    hide Regular, PrintText, PrintItems, PrintMembers, Rendering.Render, Tabs;
    match v
    case Num(r) => NumberRegular(r);
    case Str(t) => TextRegular(t);
    case Arr(items) =>
      ItemsRegular(items, depth + 1, fmt);
      PlainRegular([LBRACKET]);
      PlainRegular([RBRACKET]);
      RegularConcat([LBRACKET], PrintItems(items, depth + 1, fmt));
      RegularConcat([LBRACKET] + PrintItems(items, depth + 1, fmt), [RBRACKET]);
    case Obj(ms) =>
      MembersRegular(ms, depth + 1, fmt);
      TabsRegular(depth);
      PlainRegular([RBRACE]);
      PlainRegular([]);
      PlainRegular(OpenObject(fmt));
      RegularConcat(if fmt then Tabs(depth) else [], [RBRACE]);
      RegularConcat(OpenObject(fmt), PrintMembers(ms, depth + 1, fmt));
      RegularConcat(OpenObject(fmt) + PrintMembers(ms, depth + 1, fmt), CloseObject(depth, fmt));
    case _ =>
      PlainRegular(Print(v, depth, fmt));
  }

  lemma {:induction false} ItemsRegular(items: seq<Value>, depth: nat, fmt: bool)
    requires Clean(Arr(items))
    ensures Regular(PrintItems(items, depth, fmt))
    decreases items
  {
    hide Regular, Print;
    if |items| == 0 {
      PlainRegular([]);
    } else {
      PrintRegular(items[0], depth, fmt);
      ItemsRegular(items[1..], depth, fmt);
      PlainRegular(ItemGap(fmt));
      RegularConcat(Print(items[0], depth, fmt), ItemGap(fmt));
      RegularConcat(Print(items[0], depth, fmt) + ItemGap(fmt), PrintItems(items[1..], depth, fmt));
    }
  }

  lemma {:induction false} MembersRegular(ms: seq<Member>, depth: nat, fmt: bool)
    requires Clean(Obj(ms))
    ensures Regular(PrintMembers(ms, depth, fmt))
    decreases ms
  {
    hide Regular, PrintMember;
    if |ms| == 0 {
      PlainRegular([]);
    } else {
      var last := |ms| == 1;
      MemberRegular(ms[0], depth, fmt);
      MembersRegular(ms[1..], depth, fmt);
      PlainRegular(MemberTail(last, fmt));
      RegularConcat(PrintMember(ms[0], depth, fmt), MemberTail(last, fmt));
      RegularConcat(PrintMember(ms[0], depth, fmt) + MemberTail(last, fmt), PrintMembers(ms[1..], depth, fmt));
    }
  }

  lemma {:induction false} MemberRegular(m: Member, depth: nat, fmt: bool)
    requires CleanMember(m)
    ensures Regular(PrintMember(m, depth, fmt))
    decreases m
  {
    hide Regular, Print, PrintText, Tabs;
    var indent, colon := if fmt then Tabs(depth) else [], if fmt then [COLON, TAB] else [COLON];
    TabsRegular(depth);
    PlainRegular([]);
    PlainRegular(colon);
    TextRegular(m.name);
    PrintRegular(m.value, depth, fmt);
    RegularConcat(indent, PrintText(m.name));
    RegularConcat(indent + PrintText(m.name), colon);
    RegularConcat(indent + PrintText(m.name) + colon, Print(m.value, depth, fmt));
  }

  // ---- Wherever a quote stands, what follows it is complete ----

  lemma {:induction false} BehindQuote(s: bytes, q: nat)
    requires Regular(s) && q < |s| && s[q] == Strings.QUOTE
    ensures Regular(s[q + 1..])
    decreases |s|
  {
    var n := if s[0] != Strings.BACKSLASH then 1 else if s[1] != Strings.LOWER_U then 2 else 6;
    if q >= n {
      assert s[n..][q - n] == s[q] && s[n..][q - n + 1..] == s[q + 1..];
      BehindQuote(s[n..], q - n);
    }
  }

  lemma {:induction false} RegularComplete(s: bytes, p: nat)
    requires p <= |s| && Regular(s[p..])
    ensures Strings.Complete(s, p)
    decreases |s| - p
  {
    if p < |s| && !Strings.Stops(s[p]) {
      var w := s[p..];
      var n := if w[0] != Strings.BACKSLASH then 1 else if w[1] != Strings.LOWER_U then 2 else 6;
      assert w[n..] == s[p + n..];
      RegularComplete(s, p + n);
    }
  }

  ghost predicate Unbroken(s: bytes) {
    forall q :: 0 <= q < |s| && s[q] == Strings.QUOTE ==> Strings.Complete(s, q + 1)
  }

  lemma {:induction false} ValueInside(s: bytes, i: nat)
    requires i <= |s| && Unbroken(s)
    ensures ParseValue(s, i) != Overrun
    decreases |s| - i, 0
  {
    hide ParseElems, ParseMembers, Strings.Complete, Strings.Decode, Numbers.Scan;
    if i < |s| && s[i] == LBRACKET {
      if At(s, Skip(s, i + 1)) != RBRACKET {
        ElemsInside(s, Skip(s, i + 1), []);
      }
    } else if i < |s| && s[i] == LBRACE {
      if At(s, Skip(s, i + 1)) != RBRACE {
        MembersInside(s, Skip(s, i + 1), []);
      }
    }
  }

  lemma {:induction false} ElemsInside(s: bytes, k: nat, acc: seq<Value>)
    requires k <= |s| && Unbroken(s)
    ensures ParseElems(s, k, acc) != Overrun
    decreases |s| - k, 1
  {
    hide ParseValue, Unbroken;
    var e := ParseValue(s, Skip(s, k));
    ValueInside(s, Skip(s, k));
    if e.Ok? && At(s, Skip(s, e.pos)) == COMMA {
      ElemsInside(s, Skip(s, e.pos) + 1, acc + [e.v]);
    }
  }

  lemma NameInside(s: bytes, k: nat)
    requires k <= |s| && Unbroken(s)
    ensures ReadName(s, k) != NameOverrun
  {
    hide Strings.Complete, Strings.Decode, Strings.Close;
  }

  lemma {:induction false} MembersInside(s: bytes, k: nat, acc: seq<Member>)
    requires k <= |s| && Unbroken(s)
    ensures ParseMembers(s, k, acc) != Overrun
    decreases |s| - k, 1
  {
    hide ParseValue, Unbroken, ReadName;
    NameInside(s, k);
    var name := ReadName(s, k);
    if name.Name? {
      var e := ParseValue(s, Skip(s, name.next));
      ValueInside(s, Skip(s, name.next));
      if e.Ok? && At(s, Skip(s, e.pos)) == COMMA {
        MembersInside(s, Skip(s, e.pos) + 1, acc + [Member(Some(name.name), e.v)]);
      }
    }
  }

  // Whatever is printed can be given to the parser.
  lemma {:induction false} PrintNeverOverruns(v: Value, depth: nat, fmt: bool)
    requires Clean(v)
    ensures ParseText(Print(v, depth, fmt)) != Overrun
  {
    hide Regular, Print, ParseValue, Strings.Complete;
    var s := Print(v, depth, fmt);
    PrintRegular(v, depth, fmt);
    forall q | 0 <= q < |s| && s[q] == Strings.QUOTE ensures Strings.Complete(s, q + 1) {
      BehindQuote(s, q);
      RegularComplete(s, q + 1);
    }
    ValueInside(s, Skip(s, 0));
  }
}
