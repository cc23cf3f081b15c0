// The printer over the heap. print_array and print_object gather the texts of their entries in
// tables, measure, allocate once, and compose; every buffer but the result is freed again.
module Printer {
  import opened Bytes
  import opened Memory
  import opened Tables
  import opened Trees
  import Composing
  import Json
  import Lists
  import Numbers
  import Rendering
  import StringScans
  import StringTokens

  // The low byte of the type word.
  function Kind(t: Tree): int {
    t.typ % 256
  }

  predicate IsList(t: Tree) {
    Kind(t) == TYPE_ARRAY || Kind(t) == TYPE_OBJECT
  }

  // Every item the printer reaches has one of the seven types.
  predicate Known(t: Tree)
    decreases t, 1
  {
    Kind(t) <= TYPE_OBJECT && (IsList(t) ==> KnownAll(t.kids))
  }

  predicate KnownAll(ts: seq<Tree>)
    decreases ts, 0
  {
    forall i :: 0 <= i < |ts| ==> Known(ts[i])
  }

  predicate KnownTo(ts: seq<Tree>, i: nat)
    requires i <= |ts|
  {
    forall j :: 0 <= j < i ==> Known(ts[j])
  }

  lemma {:induction false} KnownStep(ts: seq<Tree>, i: nat)
    requires i < |ts|
    ensures KnownTo(ts, i + 1) <==> KnownTo(ts, i) && Known(ts[i])
    ensures KnownAll(ts) ==> Known(ts[i])
  {
    hide Known;
  }

  lemma {:induction false} KnownEnds(ts: seq<Tree>)
    ensures KnownTo(ts, 0) && KnownTo(ts, |ts|) == KnownAll(ts)
  {
    hide Known;
  }

  // Every number the printer reaches is written as its real field demands, and its text fits the
  // buffer it is written into.
  predicate Fit(t: Tree)
    decreases t, 1
  {
    && (Kind(t) == TYPE_NUMBER ==> Rendering.Agree(t.ival, t.num) && Rendering.Fits(t.num))
    && (IsList(t) ==> FitAll(t.kids))
  }

  predicate FitAll(ts: seq<Tree>)
    decreases ts, 0
  {
    forall i :: 0 <= i < |ts| ==> Fit(ts[i])
  }

  // What a printing call leaves behind. Either a new C string and nothing else is allocated, or
  // nothing is: then an allocation failed or an item had no type to print.
  twostate predicate Delivered(lib: Library, new out: Slot, known: bool, text: bytes)
    reads lib, if out == null then {} else {out}
  {
    && lib.faults >= old(lib.faults) && (lib.reliable ==> lib.faults == old(lib.faults))
    && (out == null ==> lib.live == old(lib.live) && (lib.faults > old(lib.faults) || !known))
    && (out != null ==>
          && fresh(out) && lib.live == old(lib.live) + {out} && lib.faults == old(lib.faults)
          && known && CString(out, text))
  }

  // print_string_ptr
  method PrintStringPtr(lib: Library, str: Slot, ghost b: Buf) returns (out: Slot)
    requires HoldsBuf(b, str)
    modifies lib`live, lib`faults
    ensures Delivered(lib, out, true, Json.PrintText(BufText(b)))
  {
    hide StringTokens.QuoteBody;
    if str == null {
      out := lib.StrDup([]);
      return;
    }
    var n := Composing.StrLen(str, b.chars);
    var len := StringScans.Count(str[..n]);
    out := lib.NewBytes(len + 3);
    if out == null {
      return;
    }
    StringScans.Emit(out, str[..n]);
    QuoteNulFree(str[..n]);
  }

  lemma QuoteNulFree(s: bytes)
    ensures NulFree(StringTokens.Quote(s))
  {
    QuoteBodyNulFree(s);
  }

  lemma {:induction false} QuoteBodyNulFree(s: bytes)
    ensures NulFree(StringTokens.QuoteBody(s))
  {
    if |s| > 0 {
      QuoteBodyNulFree(s[1..]);
    }
  }

  // print_number: the form depends on the two number fields, and so does the buffer. A text too
  // long for the 64 bytes is written past their end; what happens then is not modelled.
  method PrintNumber(lib: Library, item: Node) returns (out: Slot, overran: bool)
    modifies lib`live, lib`faults
    ensures var text := Numbers.Text(Rendering.FieldsTok(item.valueint, item.valuedouble));
            && (overran <==> |text| >= 64 && lib.faults == old(lib.faults))
            && (!overran ==> Delivered(lib, out, true, text))
    ensures out != null ==> out.Length == if Rendering.PrintsInt(item.valueint, item.valuedouble) then 21 else 64
  {
    hide Numbers.Text, Numbers.DecTok, Rendering.SciTok, Rendering.FixedTok, Rendering.PrintsWhole,
         Rendering.PrintsScientific;
    var ival, d := item.valueint, item.valuedouble;
    overran := false;
    FieldsForm(ival, d);
    if Rendering.PrintsInt(ival, d) {
      out := lib.NewBytes(21);
      if out != null {
        Composing.CopyWord(out, Numbers.Dec(ival));
      }
    } else {
      out := lib.NewBytes(64);
      if out != null {
        var text := if Rendering.PrintsWhole(d) then Numbers.Dec(d.Floor)
                    else Numbers.Text(if Rendering.PrintsScientific(d) then Rendering.SciTok(d)
                      else Rendering.FixedTok(d));
        if |text| >= 64 {
          overran := true;
        } else {
          Composing.CopyWord(out, text);
        }
      }
    }
  }

  lemma {:induction false} FieldsForm(ival: int, d: real)
    ensures d == 0.0 ==> Rendering.PrintsWhole(d)
    ensures var text := Numbers.Text(Rendering.FieldsTok(ival, d));
            && NulFree(text)
            && (Rendering.PrintsInt(ival, d) ==> text == Numbers.Dec(ival) && |text| < 21)
            && (!Rendering.PrintsInt(ival, d) && Rendering.PrintsWhole(d) ==> text == Numbers.Dec(d.Floor))
  {
    hide Numbers.Dec, Numbers.DecTok, Numbers.Text, Numbers.Rfc, Numbers.Value, Rendering.SciTok, Rendering.FixedTok,
         Rendering.PrintsScientific;
    var tok := Rendering.FieldsTok(ival, d);
    if Rendering.PrintsInt(ival, d) {
      Numbers.DecIsToken(ival);
      Numbers.DecFits(ival);
    } else if Rendering.PrintsWhole(d) {
      Numbers.DecIsToken(d.Floor);
    } else if Rendering.PrintsScientific(d) {
      Rendering.SciIsToken(d);
    } else {
      Rendering.FixedIsToken(d);
    }
    TokenNulFree(tok);
  }

  // An item whose fields agree gets the text of its number, if that has room.
  lemma {:induction false} FittingText(ival: int, d: real)
    requires Rendering.Agree(ival, d) && Rendering.Fits(d)
    ensures Numbers.Text(Rendering.FieldsTok(ival, d)) == Rendering.Render(d) && |Rendering.Render(d)| < 64
  {
    hide Rendering.Agree, Rendering.Fits, Rendering.FieldsTok, Rendering.Render, Numbers.Text;
    Rendering.AgreeIff(ival, d);
    Rendering.FitsIff(d);
  }

  lemma RenderNulFree(r: real)
    ensures NulFree(Rendering.Render(r))
  {
    hide Rendering.RenderTok;
    Rendering.RenderIsRfc(r);
    TokenNulFree(Rendering.RenderTok(r));
  }

  lemma {:induction false} TokenNulFree(tok: Numbers.NumTok)
    requires Numbers.Rfc(tok)
    ensures NulFree(Numbers.Text(tok))
  {
  }

  // ---- Arrays ----

  ghost function ItemTexts(items: seq<Json.Value>, depth: nat, fmt: bool): (ws: seq<bytes>)
    ensures |ws| == |items| && forall i :: 0 <= i < |items| ==> ws[i] == Json.Print(items[i], depth, fmt)
  {
    seq(|items|, i requires 0 <= i < |items| => Json.Print(items[i], depth, fmt))
  }

  lemma {:induction false} ItemsStep(items: seq<Json.Value>, i: nat, depth: nat, fmt: bool)
    requires i < |items|
    ensures Json.PrintItems(items[i..], depth, fmt)
         == Json.Print(items[i], depth, fmt) + (if i == |items| - 1 then [] else Json.ItemGap(fmt))
          + Json.PrintItems(items[i + 1..], depth, fmt)
    ensures Json.ItemsLen(items[i..], depth, fmt)
         == |Json.Print(items[i], depth, fmt)| + 2 + Json.Extra(fmt) + Json.ItemsLen(items[i + 1..], depth, fmt)
  {
    assert items[i..][0] == items[i] && items[i..][1..] == items[i + 1..];
  }

  // The table spells the first i items, and len is what the length comes to without the rest.
  ghost predicate Counted(es: seq<Slot>, items: seq<Json.Value>, i: nat, depth: nat, fmt: bool, len: nat)
    requires i <= |items|
    reads Slots(es)
  {
    && Spelled(es, ItemTexts(items, depth, fmt)[..i])
    && len + Json.ItemsLen(items[i..], depth, fmt) == 5 + Json.ItemsLen(items, depth, fmt)
  }

  lemma {:induction false} NoneCounted(es: seq<Slot>, items: seq<Json.Value>, depth: nat, fmt: bool)
    requires Spelled(es, [])
    ensures Counted(es, items, 0, depth, fmt, 5)
  {
    hide Spelled, Json.ItemsLen;
    assert items[0..] == items && ItemTexts(items, depth, fmt)[..0] == [];
  }

  lemma {:induction false} AllCounted(es: seq<Slot>, items: seq<Json.Value>, depth: nat, fmt: bool, len: nat)
    requires Counted(es, items, |items|, depth, fmt, len)
    ensures Spelled(es, ItemTexts(items, depth, fmt)) && len == 5 + Json.ItemsLen(items, depth, fmt)
  {
    hide Spelled, Json.ItemsLen;
    assert items[|items|..] == [] && ItemTexts(items, depth, fmt)[..|items|] == ItemTexts(items, depth, fmt);
    NoItemsLen(depth, fmt);
  }

  lemma {:induction false} CountedMore(es: seq<Slot>, items: seq<Json.Value>, i: nat, depth: nat, fmt: bool, len: nat,
          ret: array<byte>)
    requires i < |items| == |es| && es[i] == null && Counted(es, items, i, depth, fmt, len)
    requires CString(ret, Json.Print(items[i], depth, fmt))
    ensures Counted(es[i := ret], items, i + 1, depth, fmt,
                    len + |Json.Print(items[i], depth, fmt)| + 2 + if fmt then 1 else 0)
  {
    hide Spelled, Json.ItemsLen, Json.PrintItems, Json.Print, CString;
    ghost var texts := ItemTexts(items, depth, fmt);
    SpelledMore(es, texts[..i], ret, texts[i]);
    assert texts[..i] + [texts[i]] == texts[..i + 1];
    ItemsStep(items, i, depth, fmt);
  }

  // The table of the entries' texts and the length of the array's text. A failed entry stops it.
  method GatherItems(lib: Library, first: Node?, entries: array<Slot>, depth: nat, fmt: bool, ghost ts: seq<Tree>)
    returns (fail: bool, len: nat)
    requires Linked(Roots(ts), first) && HoldsAll(ts, true) && FitAll(ts)
    requires FootAll(ts, true) <= lib.live && lib !in FootAll(ts, true)
    requires entries.Length == |ts| && entries !in FootAll(ts, true) && forall i :: 0 <= i < |ts| ==> entries[i] == null
    modifies lib`live, lib`faults, entries
    ensures Apart(entries[..]) && fresh(Slots(entries[..])) && lib.live == old(lib.live) + Slots(entries[..])
    ensures lib.faults >= old(lib.faults) && (lib.reliable ==> lib.faults == old(lib.faults))
    ensures fail ==> lib.faults > old(lib.faults) || !KnownAll(ts)
    ensures !fail ==> && KnownAll(ts) && lib.faults == old(lib.faults)
                      && Spelled(entries[..], ItemTexts(ToItems(ts), depth, fmt))
                      && len == 5 + Json.ItemsLen(ToItems(ts), depth, fmt)
    decreases ts, 0
  {
    hide HoldsAll, Holds, FootAll, Foot, Known, KnownAll, KnownTo, Fit, ToItems, ToJson, Json.Print, Json.ItemsLen,
         Json.PrintItems, Linked, Slots, Apart, Spelled, CString, Counted;
    ghost var items := ToItems(ts);
    var child, i := first, 0;
    fail, len := false, 5;
    NoSlots(entries[..]);
    NoneCounted(entries[..], items, depth, fmt);
    KnownEnds(ts);
    assert child == Lists.NodeAt(ts, 0) by { Lists.FirstAt(ts, first); }
    while child != null && !fail
      invariant i <= |ts| && (!fail ==> child == Lists.NodeAt(ts, i))
      invariant HoldsAll(ts, true) && forall j :: i <= j < |ts| ==> entries[j] == null
      invariant Apart(entries[..]) && fresh(Slots(entries[..])) && lib.live == old(lib.live) + Slots(entries[..])
      invariant lib.faults >= old(lib.faults) && (lib.reliable ==> lib.faults == old(lib.faults))
      invariant fail ==> lib.faults > old(lib.faults) || !KnownAll(ts)
      invariant !fail ==>
        lib.faults == old(lib.faults) && KnownTo(ts, i) && Counted(entries[..], items, i, depth, fmt, len)
      decreases |ts| - i
    {
      ItemAt(ts, i, true);
      Lists.StepAt(ts, first, i);
      KnownStep(ts, i);
      ghost var es := entries[..];
      var ret := PrintValue(lib, child, depth, fmt, ts[i]);
      SlotsSet(es, i, ret);
      entries[i] := ret;
      assert entries[..] == es[i := ret];
      if ret != null {
        CountedMore(es, items, i, depth, fmt, len, ret);
        var n := Composing.StrLen(ret, Json.Print(items[i], depth, fmt));
        len := len + n + 2 + if fmt then 1 else 0;
      } else {
        fail := true;
      }
      i, child := i + 1, child.next;
    }
    if !fail {
      AllCounted(entries[..], items, depth, fmt, len);
    }
  }

  lemma {:induction false} NoItemsLen(depth: nat, fmt: bool)
    ensures Json.ItemsLen([], depth, fmt) == 0 && Json.PrintItems([], depth, fmt) == []
  {
  }

  lemma IsCString(a: array<byte>, w: bytes)
    requires |w| < a.Length && a[..|w|] == w && a[|w|] == 0 && NulFree(w)
    ensures CString(a, w)
  {
  }

  lemma ConcatNulFree(a: bytes, b: bytes)
    requires NulFree(a) && NulFree(b)
    ensures NulFree(a + b)
  {
  }

  lemma TextNulFree(t: Option<bytes>)
    ensures NulFree(Json.PrintText(t))
  {
    if t.Some? {
      QuoteNulFree(t.value);
    }
  }

  // Printed text holds no NUL, whatever the tree holds.
  lemma {:induction false} PrintNulFree(v: Json.Value, depth: nat, fmt: bool)
    ensures NulFree(Json.Print(v, depth, fmt))
    decreases v
  {
    hide Rendering.Render, Json.PrintText, Json.PrintItems, Json.PrintMembers;
    match v
    case Num(r) => RenderNulFree(r);
    case Str(t) => TextNulFree(t);
    case Arr(items) => ItemsNulFree(items, depth + 1, fmt);
    case Obj(ms) =>
      MembersNulFree(ms, depth + 1, fmt);
      TabsNulFree(depth);
    case _ =>
  }

  lemma {:induction false} ItemsNulFree(items: seq<Json.Value>, depth: nat, fmt: bool)
    ensures NulFree(Json.PrintItems(items, depth, fmt))
    decreases items
  {
    hide Json.Print;
    if |items| > 0 {
      PrintNulFree(items[0], depth, fmt);
      ItemsNulFree(items[1..], depth, fmt);
      ConcatNulFree(Json.Print(items[0], depth, fmt), Json.ItemGap(fmt));
    }
  }

  lemma {:induction false} MembersNulFree(ms: seq<Json.Member>, depth: nat, fmt: bool)
    ensures NulFree(Json.PrintMembers(ms, depth, fmt))
    decreases ms
  {
    hide Json.PrintMember;
    if |ms| > 0 {
      MemberNulFree(ms[0], depth, fmt);
      MembersNulFree(ms[1..], depth, fmt);
      ConcatNulFree(Json.PrintMember(ms[0], depth, fmt), Json.MemberTail(|ms| == 1, fmt));
    }
  }

  lemma {:induction false} MemberNulFree(m: Json.Member, depth: nat, fmt: bool)
    ensures NulFree(Json.PrintMember(m, depth, fmt))
    decreases m
  {
    hide Json.Print, Json.Tabs, Json.PrintText;
    TabsNulFree(depth);
    TextNulFree(m.name);
    PrintNulFree(m.value, depth, fmt);
    ConcatNulFree(Json.MemberHead(m.name, depth, fmt), Json.Print(m.value, depth, fmt));
  }

  lemma {:induction false} TabsNulFree(n: nat)
    ensures NulFree(Json.Tabs(n))
  {
    if n > 0 {
      TabsNulFree(n - 1);
    }
  }

  // What is still to be copied.
  ghost predicate Left(es: seq<Slot>, texts: seq<bytes>, i: nat)
    requires i <= |es| == |texts|
    reads Slots(es)
  {
    forall j :: i <= j < |es| ==> es[j] != null && es[j] in Slots(es) && CString(es[j], texts[j])
  }

  // One entry is copied and freed; the later ones are other buffers.
  method ComposeItem(lib: Library, out: array<byte>, at: nat, entries: array<Slot>, i: nat, depth: nat, fmt: bool,
          ghost es: seq<Slot>, ghost items: seq<Json.Value>)
    returns (ptr: nat)
    requires entries[..] == es && Apart(es) && |items| == |es| && i < |es| && es[i] in lib.live
    requires Left(es, ItemTexts(items, depth + 1, fmt), i) && out !in Slots(es) && entries !in Slots(es)
    requires at + |Json.PrintItems(items[i..], depth + 1, fmt)| < out.Length
    modifies lib`live, out, es[i]
    ensures Left(es, ItemTexts(items, depth + 1, fmt), i + 1) && lib.live == old(lib.live) - {es[i]}
    ensures ptr >= at && ptr + |Json.PrintItems(items[i + 1..], depth + 1, fmt)|
      == at + |Json.PrintItems(items[i..], depth + 1, fmt)|
    ensures out[..ptr] + Json.PrintItems(items[i + 1..], depth + 1, fmt)
         == old(out[..at]) + Json.PrintItems(items[i..], depth + 1, fmt)
  {
    hide Slots, Json.PrintItems, CString;
    ItemsStep(items, i, depth + 1, fmt);
    ghost var rest := Json.PrintItems(items[i + 1..], depth + 1, fmt);
    ghost var text := ItemTexts(items, depth + 1, fmt)[i];
    ghost var gap := if i == |items| - 1 then [] else Json.ItemGap(fmt);
    assert old(out[..at]) + (text + gap + rest) == (old(out[..at]) + (text + gap)) + rest;
    ptr := Composing.AppendItem(out, at, entries[i], i == entries.Length - 1, fmt, text);
    lib.FreeBytes(entries[i]);
  }

  // The composing pass of an array, with everything in the table freed on the way.
  method ComposeArray(lib: Library, out: array<byte>, entries: array<Slot>, depth: nat, fmt: bool,
          ghost es: seq<Slot>, ghost items: seq<Json.Value>)
    requires entries[..] == es && Apart(es) && |items| == |es| && Spelled(es, ItemTexts(items, depth + 1, fmt))
    requires out.Length == Json.ArrayLen(items, depth, fmt)
    requires out !in Slots(es) && entries !in Slots(es) && Slots(es) + {entries} <= lib.live
    modifies lib`live, out, entries, Slots(es)
    ensures CString(out, Json.Print(Json.Arr(items), depth, fmt))
    ensures lib.live == old(lib.live) - Slots(es) - {entries}
  {
    hide Slots, Apart, Json.ItemsLen, Json.ArrayLen, Json.PrintItems, CString;
    ghost var texts := ItemTexts(items, depth + 1, fmt);
    ghost var whole := Json.PrintItems(items, depth + 1, fmt);
    Json.ArraySlack(items, depth, fmt);
    assert |Json.Print(Json.Arr(items), depth, fmt)| == |whole| + 2;
    assert Left(es, texts, 0);
    hide Spelled;
    out[0] := Json.LBRACKET;
    out[1] := 0;
    var ptr, i := 1, 0;
    assert items[0..] == items;
    NoSlots(es[..0]);
    while i < entries.Length
      invariant i <= |es| && entries[..] == es && lib.live == old(lib.live) - Slots(es[..i])
      invariant 1 <= ptr && ptr + |Json.PrintItems(items[i..], depth + 1, fmt)| == 1 + |whole| && Left(es, texts, i)
      invariant out[..ptr] + Json.PrintItems(items[i..], depth + 1, fmt) == [Json.LBRACKET] + whole
    {
      SlotsSplit(es, i);
      ptr := ComposeItem(lib, out, ptr, entries, i, depth, fmt, es, items);
      i := i + 1;
    }
    assert es[..i] == es && items[i..] == [];
    NoItemsLen(depth + 1, fmt);
    lib.FreeTable(entries);
    out[ptr] := Json.RBRACKET;
    out[ptr + 1] := 0;
    assert out[..ptr + 1] == [Json.LBRACKET] + whole + [Json.RBRACKET];
    PrintNulFree(Json.Arr(items), depth, fmt);
    assert CString(out, Json.Print(Json.Arr(items), depth, fmt)) by {
      IsCString(out, Json.Print(Json.Arr(items), depth, fmt));
    }
  }

  method PrintArray(lib: Library, item: Node, depth: nat, fmt: bool, ghost t: Tree) returns (out: Slot)
    requires item == t.node && Holds(t, true) && Kind(t) == TYPE_ARRAY && Fit(t)
    requires Foot(t, true) <= lib.live && lib !in Foot(t, true)
    modifies lib`live, lib`faults
    ensures Delivered(lib, out, Known(t), Json.Print(ToJson(t), depth, fmt))
    decreases t, 1
  {
    hide Holds, HoldsAll, Foot, FootAll, Fit, Known, ToItems, ToJson, Json.Print, Json.ItemsLen, Slots, Apart,
         Spelled, CString, Linked;
    ListHeld(t);
    var numentries := Lists.Count(item.child, t.kids);
    var entries := lib.NewTable(numentries);
    if entries == null {
      return null;
    }
    var fail, len := GatherItems(lib, item.child, entries, depth + 1, fmt, t.kids);
    out := null;
    if !fail {
      out := lib.NewBytes(len);
    }
    if out == null {
      Release(lib, entries, entries[..]);
      return;
    }
    ComposeArray(lib, out, entries, depth, fmt, entries[..], ToItems(t.kids));
  }

  lemma {:induction false} ListHeld(t: Tree)
    requires Holds(t, true)
    ensures Linked(Roots(t.kids), t.node.child) && HoldsAll(t.kids, true) && FootAll(t.kids, true) <= Foot(t, true)
    ensures Kind(t) == TYPE_ARRAY ==> ToJson(t) == Json.Arr(ToItems(t.kids))
    ensures Kind(t) == TYPE_OBJECT ==> ToJson(t) == Json.Obj(ToMembers(t.kids))
    ensures IsList(t) && Fit(t) ==> FitAll(t.kids)
    ensures IsList(t) ==> Known(t) == KnownAll(t.kids)
    ensures HoldsBuf(t.name, t.node.name)
  {
  }

  // ---- Objects ----

  ghost function NameTexts(ms: seq<Json.Member>): (ws: seq<bytes>)
    ensures |ws| == |ms| && forall i :: 0 <= i < |ms| ==> ws[i] == Json.PrintText(ms[i].name)
  {
    seq(|ms|, i requires 0 <= i < |ms| => Json.PrintText(ms[i].name))
  }

  ghost function ValueTexts(ms: seq<Json.Member>, depth: nat, fmt: bool): (ws: seq<bytes>)
    ensures |ws| == |ms| && forall i :: 0 <= i < |ms| ==> ws[i] == Json.Print(ms[i].value, depth, fmt)
  {
    seq(|ms|, i requires 0 <= i < |ms| => Json.Print(ms[i].value, depth, fmt))
  }

  lemma {:induction false} MembersStep(ms: seq<Json.Member>, i: nat, depth: nat, fmt: bool)
    requires i < |ms|
    ensures Json.PrintMembers(ms[i..], depth, fmt)
         == Composing.MemberText(Json.PrintText(ms[i].name), Json.Print(ms[i].value, depth, fmt), depth,
           i == |ms| - 1, fmt)
          + Json.PrintMembers(ms[i + 1..], depth, fmt)
    ensures Json.MembersLen(ms[i..], depth, fmt)
         == |Json.Print(ms[i].value, depth, fmt)| + |Json.PrintText(ms[i].name)| + 2 + (if fmt then 2 + depth else 0)
          + Json.MembersLen(ms[i + 1..], depth, fmt)
  {
    assert ms[i..][0] == ms[i] && ms[i..][1..] == ms[i + 1..];
  }

  lemma {:induction false} NoMembersLen(depth: nat, fmt: bool)
    ensures Json.MembersLen([], depth, fmt) == 0 && Json.PrintMembers([], depth, fmt) == []
  {
  }

  ghost function Obj(a: Slot): set<object> {
    if a == null then {} else {a}
  }

  // The two tables after i members: no buffer stands twice, and the other slots are empty.
  ghost predicate Gathered(names: array<Slot>, entries: array<Slot>, i: nat)
    reads names, entries
  {
    && names != entries && names.Length == entries.Length && i <= names.Length
    && Apart(names[..]) && Apart(entries[..]) && Slots(names[..]) !! Slots(entries[..])
    && (forall j :: i <= j < names.Length ==> names[j] == null && entries[j] == null)
  }

  lemma GatheredParts(names: array<Slot>, entries: array<Slot>, i: nat)
    requires Gathered(names, entries, i)
    ensures names.Length == entries.Length
    ensures forall j :: i <= j < names.Length ==> names[j] == null && entries[j] == null
  {
  }

  method GatherMember(lib: Library, child: Node, names: array<Slot>, entries: array<Slot>, i: nat, depth: nat,
          fmt: bool, ghost t: Tree)
    returns (str: Slot, ret: Slot)
    requires child == t.node && Holds(t, true) && Fit(t)
    requires Foot(t, true) <= lib.live && {lib, names, entries} !! Foot(t, true)
    requires Gathered(names, entries, i) && i < names.Length && Slots(names[..]) + Slots(entries[..]) <= lib.live
    modifies lib`live, lib`faults, names, entries
    ensures names[..] == old(names[..])[i := str] && Slots(names[..]) == old(Slots(names[..])) + Obj(str)
    ensures entries[..] == old(entries[..])[i := ret] && Slots(entries[..]) == old(Slots(entries[..])) + Obj(ret)
    ensures Gathered(names, entries, i + 1) && fresh(Obj(str)) && fresh(Obj(ret))
      && lib.live == old(lib.live) + Obj(str) + Obj(ret)
    ensures lib.faults >= old(lib.faults) && (lib.reliable ==> lib.faults == old(lib.faults))
    ensures str == null || ret == null ==> lib.faults > old(lib.faults) || !Known(t)
    ensures str != null && ret != null ==> Known(t) && lib.faults == old(lib.faults)
    ensures str != null ==> CString(str, Json.PrintText(BufText(t.name)))
    ensures ret != null ==> CString(ret, Json.Print(ToJson(t), depth, fmt))
    decreases t, 3
  {
    hide Holds, Foot, Fit, Known, ToJson, Json.Print, Json.PrintText, Slots, Apart, CString;
    ghost var ns, es := names[..], entries[..];
    assert HoldsBuf(t.name, child.name) by { ListHeld(t); }
    str := PrintStringPtr(lib, child.name, t.name);
    SlotsSet(ns, i, str);
    names[i] := str;
    assert names[..] == ns[i := str];
    ret := PrintValue(lib, child, depth, fmt, t);
    SlotsSet(es, i, ret);
    entries[i] := ret;
    assert entries[..] == es[i := ret];
  }

  // The tables spell the first i members, and len is what the length comes to without the rest.
  ghost predicate Measured(ns: seq<Slot>, es: seq<Slot>, ms: seq<Json.Member>, i: nat, depth: nat, fmt: bool, len: nat)
    requires i <= |ms|
    reads Slots(ns), Slots(es)
  {
    && Spelled(ns, NameTexts(ms)[..i]) && Spelled(es, ValueTexts(ms, depth, fmt)[..i])
    && len + Json.MembersLen(ms[i..], depth, fmt) == 7 + (if fmt then depth else 0) + Json.MembersLen(ms, depth, fmt)
  }

  lemma {:induction false} NoneMeasured(ns: seq<Slot>, es: seq<Slot>, ms: seq<Json.Member>, depth: nat, fmt: bool)
    requires Spelled(ns, []) && Spelled(es, [])
    ensures Measured(ns, es, ms, 0, depth, fmt, 7 + if fmt then depth else 0)
  {
    hide Spelled, Json.MembersLen;
    assert ms[0..] == ms && NameTexts(ms)[..0] == [] && ValueTexts(ms, depth, fmt)[..0] == [];
  }

  lemma {:induction false} AllMeasured(ns: seq<Slot>, es: seq<Slot>, ms: seq<Json.Member>, depth: nat, fmt: bool,
          len: nat)
    requires Measured(ns, es, ms, |ms|, depth, fmt, len)
    ensures Spelled(ns, NameTexts(ms)) && Spelled(es, ValueTexts(ms, depth, fmt))
    ensures len == 7 + (if fmt then depth else 0) + Json.MembersLen(ms, depth, fmt)
  {
    hide Spelled, Json.MembersLen;
    assert ms[|ms|..] == [] && NameTexts(ms)[..|ms|] == NameTexts(ms);
    assert ValueTexts(ms, depth, fmt)[..|ms|] == ValueTexts(ms, depth, fmt);
    NoMembersLen(depth, fmt);
  }

  lemma {:induction false} MeasuredMore(ns: seq<Slot>, es: seq<Slot>, ms: seq<Json.Member>, i: nat, depth: nat,
          fmt: bool, len: nat, str: array<byte>, ret: array<byte>)
    requires i < |ms| && |ns| == |es| == |ms| && ns[i] == null && es[i] == null
    requires Measured(ns, es, ms, i, depth, fmt, len)
    requires CString(str, Json.PrintText(ms[i].name)) && CString(ret, Json.Print(ms[i].value, depth, fmt))
    ensures Measured(ns[i := str], es[i := ret], ms, i + 1, depth, fmt,
                     len + |Json.Print(ms[i].value, depth, fmt)| + |Json.PrintText(ms[i].name)| + 2
                     + if fmt then 2 + depth else 0)
  {
    hide Spelled, Json.MembersLen, Json.PrintMembers, Json.Print, Json.PrintText, CString;
    ghost var titles, texts := NameTexts(ms), ValueTexts(ms, depth, fmt);
    SpelledMore(ns, titles[..i], str, titles[i]);
    SpelledMore(es, texts[..i], ret, texts[i]);
    assert titles[..i] + [titles[i]] == titles[..i + 1] && texts[..i] + [texts[i]] == texts[..i + 1];
    MembersStep(ms, i, depth, fmt);
  }

  // One member into the tables, and its share of the length.
  method NextMember(lib: Library, child: Node, names: array<Slot>, entries: array<Slot>, i: nat, depth: nat,
          fmt: bool, len: nat, ghost t: Tree, ghost ms: seq<Json.Member>, ghost base: set<object>)
    returns (ok: bool, more: nat)
    requires child == t.node && Holds(t, true) && Fit(t)
    requires Foot(t, true) <= lib.live && {lib, names, entries} !! Foot(t, true)
    requires Gathered(names, entries, i) && i < names.Length == |ms| && ms[i] == ToMember(t)
    requires lib.live == base + Slots(names[..]) + Slots(entries[..])
    requires {lib as object, names, entries} !! Slots(names[..]) + Slots(entries[..])
    modifies lib`live, lib`faults, names, entries
    ensures Gathered(names, entries, i + 1) && lib.live == base + Slots(names[..]) + Slots(entries[..])
    ensures fresh(Slots(names[..]) - old(Slots(names[..]))) && fresh(Slots(entries[..]) - old(Slots(entries[..])))
    ensures lib.faults >= old(lib.faults) && (lib.reliable ==> lib.faults == old(lib.faults))
    ensures if ok then Known(t) && lib.faults == old(lib.faults) else lib.faults > old(lib.faults) || !Known(t)
    ensures ok && old(Measured(names[..], entries[..], ms, i, depth, fmt, len)) ==>
      Measured(names[..], entries[..], ms, i + 1, depth, fmt, more)
    decreases t, 4
  {
    hide Holds, Foot, Fit, Known, ToJson, Json.Print, Json.PrintText, Json.MembersLen, Json.PrintMembers, Slots,
         Apart, Spelled, CString, Measured, Gathered;
    ghost var ns, es := names[..], entries[..];
    ghost var measured := Measured(ns, es, ms, i, depth, fmt, len);
    GatheredParts(names, entries, i);
    var str, ret := GatherMember(lib, child, names, entries, i, depth, fmt, t);
    ok, more := str != null && ret != null, len;
    if ok {
      if measured {
        MeasuredMore(ns, es, ms, i, depth, fmt, len, str, ret);
      }
      var n := Composing.StrLen(str, Json.PrintText(ms[i].name));
      var m := Composing.StrLen(ret, Json.Print(ms[i].value, depth, fmt));
      more := len + m + n + 2 + if fmt then 2 + depth else 0;
    }
  }

  // The names, the values and the length of the object's text. A failure does not stop the loop.
  method GatherMembers(lib: Library, first: Node?, names: array<Slot>, entries: array<Slot>, depth: nat, fmt: bool,
          ghost ts: seq<Tree>)
    returns (fail: bool, len: nat)
    requires Linked(Roots(ts), first) && HoldsAll(ts, true) && FitAll(ts)
    requires FootAll(ts, true) <= lib.live && {lib, names, entries} !! FootAll(ts, true)
    requires Gathered(names, entries, 0) && names.Length == |ts|
    modifies lib`live, lib`faults, names, entries
    ensures Gathered(names, entries, |ts|) && fresh(Slots(names[..])) && fresh(Slots(entries[..]))
    ensures lib.live == old(lib.live) + Slots(names[..]) + Slots(entries[..])
    ensures lib.faults >= old(lib.faults) && (lib.reliable ==> lib.faults == old(lib.faults))
    ensures fail ==> lib.faults > old(lib.faults) || !KnownAll(ts)
    ensures !fail ==> && KnownAll(ts) && lib.faults == old(lib.faults)
                      && Spelled(names[..], NameTexts(ToMembers(ts)))
                      && Spelled(entries[..], ValueTexts(ToMembers(ts), depth, fmt))
                      && len == 7 + (if fmt then depth else 0) + Json.MembersLen(ToMembers(ts), depth, fmt)
    decreases ts, 0
  {
    hide HoldsAll, Holds, FootAll, Foot, Known, KnownAll, KnownTo, Fit, ToItems, ToMembers, ToJson, Json.Print,
         Json.PrintText, Json.MembersLen, Json.PrintMembers, Linked, Slots, Apart, Spelled, CString, Measured,
         Gathered;
    ghost var ms := ToMembers(ts);
    var child, i := first, 0;
    ghost var base := lib.live;
    fail, len := false, 7 + if fmt then depth else 0;
    GatheredParts(names, entries, 0);
    NoSlots(names[..]);
    NoSlots(entries[..]);
    NoneMeasured(names[..], entries[..], ms, depth, fmt);
    KnownEnds(ts);
    assert child == Lists.NodeAt(ts, 0) by { Lists.FirstAt(ts, first); }
    while child != null
      invariant i <= |ts| && child == Lists.NodeAt(ts, i) && HoldsAll(ts, true) && Gathered(names, entries, i)
      invariant fresh(Slots(names[..])) && fresh(Slots(entries[..]))
        && lib.live == old(lib.live) + Slots(names[..]) + Slots(entries[..])
      invariant lib.faults >= old(lib.faults) && (lib.reliable ==> lib.faults == old(lib.faults))
      invariant fail ==> lib.faults > old(lib.faults) || !KnownAll(ts)
      invariant !fail ==> && lib.faults == old(lib.faults) && KnownTo(ts, i)
                          && Measured(names[..], entries[..], ms, i, depth, fmt, len)
      decreases |ts| - i
    {
      ItemAt(ts, i, true);
      Lists.StepAt(ts, first, i);
      KnownStep(ts, i);
      var ok;
      ok, len := NextMember(lib, child, names, entries, i, depth, fmt, len, ts[i], ms, base);
      fail := fail || !ok;
      i, child := i + 1, child.next;
    }
    if !fail {
      AllMeasured(names[..], entries[..], ms, depth, fmt, len);
    }
  }

  // One member is copied and its two buffers freed; the later ones are other buffers.
  method ComposeMember(lib: Library, out: array<byte>, at: nat, names: array<Slot>, entries: array<Slot>, i: nat,
          depth: nat, fmt: bool, ghost ns: seq<Slot>, ghost es: seq<Slot>, ghost ms: seq<Json.Member>)
    returns (ptr: nat)
    requires names[..] == ns && entries[..] == es && Apart(ns) && Apart(es) && Slots(ns) !! Slots(es)
    requires |ms| == |ns| == |es| && i < |es| && ns[i] in lib.live && es[i] in lib.live
    requires Left(ns, NameTexts(ms), i) && Left(es, ValueTexts(ms, depth, fmt), i)
    requires {out as object, names, entries} !! Slots(ns) + Slots(es)
    requires at + |Json.PrintMembers(ms[i..], depth, fmt)| < out.Length
    modifies lib`live, out, ns[i], es[i]
    ensures Left(ns, NameTexts(ms), i + 1) && Left(es, ValueTexts(ms, depth, fmt), i + 1)
    ensures lib.live == old(lib.live) - {ns[i]} - {es[i]}
    ensures ptr >= at && ptr + |Json.PrintMembers(ms[i + 1..], depth, fmt)|
      == at + |Json.PrintMembers(ms[i..], depth, fmt)|
    ensures out[..ptr] + Json.PrintMembers(ms[i + 1..], depth, fmt)
         == old(out[..at]) + Json.PrintMembers(ms[i..], depth, fmt)
  {
    hide Slots, Json.PrintMembers, CString, Composing.MemberText;
    MembersStep(ms, i, depth, fmt);
    ghost var rest := Json.PrintMembers(ms[i + 1..], depth, fmt);
    ghost var title, text := NameTexts(ms)[i], ValueTexts(ms, depth, fmt)[i];
    ghost var line := Composing.MemberText(title, text, depth, i == |ms| - 1, fmt);
    assert old(out[..at]) + (line + rest) == (old(out[..at]) + line) + rest;
    ptr := Composing.AppendMember(out, at, names[i], entries[i], depth, i == entries.Length - 1, fmt, title, text);
    lib.FreeBytes(names[i]);
    lib.FreeBytes(entries[i]);
  }

  method ComposeMembers(lib: Library, out: array<byte>, at: nat, names: array<Slot>, entries: array<Slot>, depth: nat,
          fmt: bool, ghost ns: seq<Slot>, ghost es: seq<Slot>, ghost ms: seq<Json.Member>)
    returns (ptr: nat)
    requires names[..] == ns && entries[..] == es && Apart(ns) && Apart(es) && Slots(ns) !! Slots(es)
    requires |ms| == |ns| == |es| && Left(ns, NameTexts(ms), 0) && Left(es, ValueTexts(ms, depth, fmt), 0)
    requires {out as object, names, entries} !! Slots(ns) + Slots(es) && Slots(ns) + Slots(es) <= lib.live
    requires at + |Json.PrintMembers(ms, depth, fmt)| < out.Length
    modifies lib`live, out, Slots(ns), Slots(es)
    ensures lib.live == old(lib.live) - Slots(ns) - Slots(es)
    ensures ptr == at + |Json.PrintMembers(ms, depth, fmt)|
    ensures out[..ptr] == old(out[..at]) + Json.PrintMembers(ms, depth, fmt)
  {
    hide Slots, Apart, Json.PrintMembers, CString;
    ptr := at;
    var i := 0;
    assert ms[0..] == ms;
    NoSlots(ns[..0]);
    NoSlots(es[..0]);
    while i < entries.Length
      invariant i <= |es| && names[..] == ns && entries[..] == es
      invariant lib.live == old(lib.live) - Slots(ns[..i]) - Slots(es[..i])
      invariant Left(ns, NameTexts(ms), i) && Left(es, ValueTexts(ms, depth, fmt), i)
      invariant 0 <= ptr && ptr + |Json.PrintMembers(ms[i..], depth, fmt)| == at + |Json.PrintMembers(ms, depth, fmt)|
      invariant out[..ptr] + Json.PrintMembers(ms[i..], depth, fmt)
        == old(out[..at]) + Json.PrintMembers(ms, depth, fmt)
    {
      SlotsSplit(ns, i);
      SlotsSplit(es, i);
      ptr := ComposeMember(lib, out, ptr, names, entries, i, depth, fmt, ns, es, ms);
      i := i + 1;
    }
    assert ns[..i] == ns && es[..i] == es && ms[i..] == [];
    NoMembersLen(depth, fmt);
  }

  method ComposeObject(lib: Library, out: array<byte>, names: array<Slot>, entries: array<Slot>, depth: nat,
          fmt: bool, ghost ns: seq<Slot>, ghost es: seq<Slot>, ghost ms: seq<Json.Member>)
    requires names[..] == ns && entries[..] == es && names != entries && Apart(ns) && Apart(es)
    requires Slots(ns) !! Slots(es)
    requires |ms| == |ns| == |es| && Spelled(ns, NameTexts(ms)) && Spelled(es, ValueTexts(ms, depth + 1, fmt))
    requires out.Length == Json.ObjectLen(ms, depth, fmt)
    requires {out as object, names, entries} !! Slots(ns) + Slots(es)
    requires Slots(ns) + Slots(es) + {names, entries} <= lib.live
    modifies lib`live, out, names, entries, Slots(ns), Slots(es)
    ensures CString(out, Json.Print(Json.Obj(ms), depth, fmt))
    ensures lib.live == old(lib.live) - Slots(ns) - Slots(es) - {names, entries}
  {
    hide Json.MembersLen, Json.ObjectLen, Json.PrintMembers, CString, Json.Tabs, Json.CloseObject, Json.OpenObject;
    ghost var whole := Json.PrintMembers(ms, depth + 1, fmt);
    ghost var open := Json.OpenObject(fmt);
    Json.ObjectSlack(ms, depth, fmt);
    assert |Json.Print(Json.Obj(ms), depth, fmt)| == |open| + |whole| + |Json.CloseObject(depth, fmt)|;
    assert Left(ns, NameTexts(ms), 0) && Left(es, ValueTexts(ms, depth + 1, fmt), 0);
    hide Spelled, Left, Slots, Apart;
    var ptr := BeginObject(out, fmt);
    ptr := ComposeMembers(lib, out, ptr, names, entries, depth + 1, fmt, ns, es, ms);
    lib.FreeTable(names);
    lib.FreeTable(entries);
    assert out[..ptr] == open + whole;
    EndObject(out, ptr, depth, fmt);
    PrintNulFree(Json.Obj(ms), depth, fmt);
    IsCString(out, Json.Print(Json.Obj(ms), depth, fmt));
  }

  method BeginObject(out: array<byte>, fmt: bool) returns (ptr: nat)
    requires out.Length > 2
    modifies out
    ensures ptr == |Json.OpenObject(fmt)| && out[..ptr] == Json.OpenObject(fmt)
  {
    out[0] := Json.LBRACE;
    ptr := 1;
    if fmt {
      out[ptr] := Json.NEWLINE;
      ptr := ptr + 1;
    }
    out[ptr] := 0;
  }

  method EndObject(out: array<byte>, at: nat, depth: nat, fmt: bool)
    requires at + |Json.CloseObject(depth, fmt)| < out.Length
    modifies out
    ensures out[..at + |Json.CloseObject(depth, fmt)|] == old(out[..at]) + Json.CloseObject(depth, fmt)
    ensures out[at + |Json.CloseObject(depth, fmt)|] == 0
  {
    hide Json.Tabs;
    var ptr := at;
    if fmt {
      ptr := Composing.AppendTabs(out, ptr, depth);
    }
    out[ptr] := Json.RBRACE;
    out[ptr + 1] := 0;
  }

  method PrintObject(lib: Library, item: Node, depth: nat, fmt: bool, ghost t: Tree) returns (out: Slot)
    requires item == t.node && Holds(t, true) && Kind(t) == TYPE_OBJECT && Fit(t)
    requires Foot(t, true) <= lib.live && lib !in Foot(t, true)
    modifies lib`live, lib`faults
    ensures Delivered(lib, out, Known(t), Json.Print(ToJson(t), depth, fmt))
    decreases t, 1
  {
    hide Holds, HoldsAll, Foot, FootAll, Fit, Known, ToMembers, ToJson, Json.Print, Json.MembersLen, Slots, Apart,
         Spelled, CString, Linked;
    ListHeld(t);
    var numentries := Lists.Count(item.child, t.kids);
    var entries := lib.NewTable(numentries);
    if entries == null {
      return null;
    }
    var names := lib.NewTable(numentries);
    if names == null {
      lib.FreeTable(entries);
      return null;
    }
    NoSlots(names[..]);
    NoSlots(entries[..]);
    ghost var before := lib.live;
    var fail, len := GatherMembers(lib, item.child, names, entries, depth + 1, fmt, t.kids);
    out := FinishObject(lib, names, entries, fail, len, depth, fmt, ToMembers(t.kids));
    assert lib.live == old(lib.live) + Obj(out) by {
      assert before == old(lib.live) + {names, entries};
    }
  }

  method FinishObject(lib: Library, names: array<Slot>, entries: array<Slot>, fail: bool, len: nat, depth: nat,
          fmt: bool, ghost ms: seq<Json.Member>)
    returns (out: Slot)
    requires Gathered(names, entries, |ms|) && names.Length == |ms|
    requires {lib as object, names, entries} !! Slots(names[..]) + Slots(entries[..])
    requires Slots(names[..]) + Slots(entries[..]) + {names, entries} <= lib.live
    requires !fail ==> Spelled(names[..], NameTexts(ms)) && Spelled(entries[..], ValueTexts(ms, depth + 1, fmt))
    requires !fail ==> len == Json.ObjectLen(ms, depth, fmt)
    modifies lib`live, lib`faults, names, entries, Slots(names[..]), Slots(entries[..])
    ensures lib.live == old(lib.live - Slots(names[..]) - Slots(entries[..]) - {names, entries}) + Obj(out)
    ensures if !fail && out == null then lib.faults == old(lib.faults) + 1 && !lib.reliable
      else lib.faults == old(lib.faults)
    ensures out != null ==> !fail && fresh(out) && CString(out, Json.Print(Json.Obj(ms), depth, fmt))
  {
    hide Json.Print, Json.ObjectLen, Slots, Apart, Spelled, CString;
    ghost var ns, es := names[..], entries[..];
    out := null;
    if !fail {
      out := lib.NewBytes(len);
    }
    if out == null {
      ReleaseBoth(lib, names, entries, ns, es);
      return;
    }
    ComposeObject(lib, out, names, entries, depth, fmt, ns, es, ms);
  }

  // print_value: an item of an unknown type has no text.
  method PrintValue(lib: Library, item: Node, depth: nat, fmt: bool, ghost t: Tree) returns (out: Slot)
    requires item == t.node && Holds(t, true) && Fit(t)
    requires Foot(t, true) <= lib.live && lib !in Foot(t, true)
    modifies lib`live, lib`faults
    ensures Delivered(lib, out, Known(t), Json.Print(ToJson(t), depth, fmt))
    decreases t, 2
  {
    hide HoldsList, KnownAll, FitAll, ToItems, ToMembers, Foot, Json.PrintText, Json.PrintItems, Json.PrintMembers,
         Rendering.Render, Rendering.Fits;
    out := null;
    var kind := item.typ % 256;
    if kind == TYPE_NULL {
      out := lib.StrDup(Json.NULL_WORD);
    } else if kind == TYPE_FALSE {
      out := lib.StrDup(Json.FALSE_WORD);
    } else if kind == TYPE_TRUE {
      out := lib.StrDup(Json.TRUE_WORD);
    } else if kind == TYPE_NUMBER {
      FittingText(t.ival, t.num);
      var overran: bool;
      out, overran := PrintNumber(lib, item);
    } else if kind == TYPE_STRING {
      out := PrintStringPtr(lib, item.valuestring, t.text);
    } else if kind == TYPE_ARRAY {
      out := PrintArray(lib, item, depth, fmt, t);
    } else if kind == TYPE_OBJECT {
      out := PrintObject(lib, item, depth, fmt, t);
    }
  }
}
