// The parser and the printer put together: what a caller of cJSON_Parse and cJSON_Print sees.
module Documents {
  import opened Bytes
  import opened Memory
  import opened Tables
  import opened Trees
  import Composing
  import Derivations
  import Grammar
  import Json
  import Numbers
  import Overruns
  import Parse
  import Parser
  import Printer
  import Rendering
  import RoundTrip

  // A parsed tree holds no references, so looking through references sees the same objects.
  lemma {:induction false} PlainIsDeep(t: Tree)
    requires Parser.Plain(t)
    ensures Foot(t, true) == Owned(t) && (Holds(t, false) ==> Holds(t, true)) && Printer.Known(t)
    decreases t, 1
  {
    PlainAllIsDeep(t.kids);
    assert !IsRef(t.typ) && Inner(t, true) == Inner(t, false);
    if Holds(t, false) {
      assert HoldsList(t.kids, t.node.child, false);
      assert HoldsList(t.kids, t.node.child, true);
    }
  }

  lemma {:induction false} PlainAllIsDeep(ts: seq<Tree>)
    requires Parser.PlainAll(ts)
    ensures FootAll(ts, true) == OwnedAll(ts) && (HoldsAll(ts, false) ==> HoldsAll(ts, true)) && Printer.KnownAll(ts)
    decreases ts, 0
  {
    if |ts| > 0 {
      PlainIsDeep(ts[0]);
      PlainAllIsDeep(ts[1..]);
      assert forall i :: 0 < i < |ts| ==> ts[i] == ts[1..][i - 1];
    }
  }

  // Its numbers can be printed unless one is too long for its buffer.
  lemma {:induction false} PlainFits(t: Tree)
    requires Parser.Plain(t)
    ensures Printer.Fit(t) <==> Json.Short(ToJson(t))
    decreases t, 1
  {
    hide Rendering.Agree, Rendering.Fits, Printer.FitAll, ToItems, ToMembers;
    if t.typ == TYPE_ARRAY || t.typ == TYPE_OBJECT {
      PlainAllFit(t.kids, t.typ == TYPE_OBJECT);
      ListFits(t);
    } else if t.typ == TYPE_NUMBER {
      TruncatedAgrees(t.num);
    }
  }

  lemma TruncatedAgrees(r: real)
    ensures Rendering.Agree(Numbers.IntOf(r), r)
  {
  }

  lemma {:induction false} ListFits(t: Tree)
    requires t.typ == TYPE_ARRAY || t.typ == TYPE_OBJECT
    ensures Printer.Fit(t) <==> Printer.FitAll(t.kids)
    ensures ToJson(t) == if t.typ == TYPE_OBJECT then Json.Obj(ToMembers(t.kids)) else Json.Arr(ToItems(t.kids))
  {
    hide Printer.FitAll, ToItems, ToMembers;
  }

  lemma {:induction false} PlainAllFit(ts: seq<Tree>, members: bool)
    requires Parser.PlainAll(ts)
    ensures Printer.FitAll(ts) <==>
      if members then Json.Short(Json.Obj(ToMembers(ts))) else Json.Short(Json.Arr(ToItems(ts)))
    decreases ts, 0
  {
    if |ts| > 0 {
      PlainFits(ts[0]);
      PlainAllFit(ts[1..], members);
      FitHead(ts);
      if members {
        ShortMembers(ToMember(ts[0]), ToMembers(ts[1..]));
        assert ToMembers(ts) == [ToMember(ts[0])] + ToMembers(ts[1..]);
      } else {
        ShortItems(ToJson(ts[0]), ToItems(ts[1..]));
        assert ToItems(ts) == [ToJson(ts[0])] + ToItems(ts[1..]);
      }
    }
  }

  lemma {:induction false} FitHead(ts: seq<Tree>)
    requires |ts| > 0
    ensures Printer.FitAll(ts) <==> Printer.Fit(ts[0]) && Printer.FitAll(ts[1..])
  {
    hide Printer.Fit;
    assert forall i :: 0 < i < |ts| ==> ts[i] == ts[1..][i - 1];
  }

  lemma {:induction false} ShortItems(v: Json.Value, vs: seq<Json.Value>)
    ensures Json.Short(Json.Arr([v] + vs)) <==> Json.Short(v) && Json.Short(Json.Arr(vs))
  {
    var all := [v] + vs;
    assert all[0] == v && forall i :: 0 < i < |all| ==> all[i] == vs[i - 1];
    assert forall i :: 0 <= i < |vs| ==> vs[i] == all[i + 1];
  }

  lemma {:induction false} ShortMembers(m: Json.Member, ms: seq<Json.Member>)
    ensures Json.Short(Json.Obj([m] + ms)) <==> Json.Short(m.value) && Json.Short(Json.Obj(ms))
  {
    var all := [m] + ms;
    assert all[0] == m && forall i :: 0 < i < |all| ==> all[i] == ms[i - 1];
    assert forall i :: 0 <= i < |ms| ==> ms[i] == all[i + 1];
  }

  // The text 1e63.
  const LONG_NUMBER: bytes := [49, 101, 54, 51]

  // One is: what LONG_NUMBER parses to is a whole number of 64 digits, and print_number writes them
  // and the terminator into 64 bytes.
  lemma {:induction false} NoRoom()
    ensures var r := Numbers.Pow10(63);
            && Parse.ParseText(LONG_NUMBER) == Parse.Ok(Json.Num(r), 4) && r == Numbers.TenTo(63) as real
            && !Json.Short(Json.Num(r)) && |Rendering.Render(r)| >= 64
  {
    hide Numbers.Pow10, Numbers.TenTo, Rendering.Fits, Rendering.Render, Parse.ParseText;
    ReadsLong();
    Rendering.LongNumber();
  }

  lemma {:induction false} ReadsLong()
    ensures Parse.ParseText(LONG_NUMBER) == Parse.Ok(Json.Num(Numbers.Pow10(63)), 4)
  {
    hide Parse.ParseValue, Numbers.Pow10;
    var tok := Numbers.NumTok(false, false, [49], [], Numbers.Exp(101, Numbers.Unsigned, [54, 51]));
    assert Numbers.NatOf([54, 51]) == 63 by { assert [54, 51][..1] == [54] && Numbers.NatOf([54]) == 6; }
    assert tok.whole + tok.frac == [49] && Numbers.NatOf([49]) == 1;
    OccursIsSlice(LONG_NUMBER, 0, LONG_NUMBER);
    assert Numbers.Text(tok) == LONG_NUMBER;
    Derivations.DerivedIsParsed(LONG_NUMBER, 0, Grammar.GNum(tok), 4);
  }

  // The texts of a tree in memory are C strings.
  lemma {:induction false} HeldIsClean(t: Tree)
    requires Holds(t, true)
    ensures Json.CleanMember(ToMember(t))
    decreases t, 2
  {
    assert HoldsBuf(t.text, t.node.valuestring) && HoldsList(t.kids, t.node.child, true);
    AllHeldAreClean(t.kids);
  }

  lemma {:induction false} AllHeldAreClean(ts: seq<Tree>)
    requires HoldsAll(ts, true)
    ensures Json.Clean(Json.Arr(ToItems(ts))) && Json.Clean(Json.Obj(ToMembers(ts)))
    decreases ts, 0
  {
    forall i | 0 <= i < |ts| ensures Json.Clean(ToItems(ts)[i]) && Json.CleanMember(ToMembers(ts)[i]) {
      ItemAt(ts, i, true);
      HeldIsClean(ts[i]);
    }
  }

  // cJSON_Print and cJSON_PrintUnformatted, by layout; a null item has no text.
  method Print(lib: Library, item: Node?, fmt: bool, ghost t: Tree) returns (out: Slot)
    requires item != null ==> item == t.node && Holds(t, true) && Printer.Fit(t)
    requires Foot(t, true) <= lib.live && lib !in Foot(t, true)
    modifies lib`live, lib`faults
    ensures item == null ==> out == null && lib.live == old(lib.live)
    ensures item != null ==> Printer.Delivered(lib, out, Printer.Known(t), Json.Print(ToJson(t), 0, fmt))
  {
    if item == null {
      return null;
    }
    out := Printer.PrintValue(lib, item, 0, fmt, t);
  }

  // Printing a tree and parsing the text builds the tree the text stands for out of new objects
  // and leaves nothing else behind. It is the printed tree, its numbers as written, unless a text
  // or name is null; where the text is no JSON, an item has no type or memory is short, nothing
  // is left at all.
  method Copy(lib: Library, item: Node, fmt: bool, ghost t: Tree) returns (c: Node?, ghost u: Option<Tree>)
    requires item == t.node && Holds(t, true) && Printer.Fit(t)
    requires Foot(t, true) <= lib.live && lib !in Foot(t, true)
    modifies lib`live, lib`faults, lib`ep
    ensures c == null <==>
      lib.faults > old(lib.faults) || !Printer.Known(t) || !Parse.ParseText(Json.Print(ToJson(t), 0, fmt)).Ok?
    ensures c == null ==> lib.live == old(lib.live)
    ensures c != null ==> && u.Some? && Parser.Built(c, NoBuf, u.value) && fresh(Owned(u.value))
                          && lib.live == old(lib.live) + Owned(u.value)
                          && ToJson(u.value) == Parse.ParseText(Json.Print(ToJson(t), 0, fmt)).v
    ensures Json.Filled(ToJson(t)) ==> Parse.ParseText(Json.Print(ToJson(t), 0, fmt)).Ok?
    ensures Json.Filled(ToJson(t)) && c != null ==> ToJson(u.value) == Json.Rounded(ToJson(t))
    ensures Holds(t, true)
  {
    hide Holds, Foot, Printer.Known, Printer.Fit, ToJson, Json.Print, Json.Filled, Json.Clean, Json.Rounded,
         Parse.ParseText, Parser.Built;
    ghost var text := Json.Print(ToJson(t), 0, fmt);
    assert Json.Clean(ToJson(t)) by { HeldIsClean(t); }
    Overruns.PrintNeverOverruns(ToJson(t), 0, fmt);
    if Json.Filled(ToJson(t)) {
      RoundTrip.ParsePrintAlone(ToJson(t), 0, fmt);
    }
    u := None;
    var out := Printer.PrintValue(lib, item, 0, fmt, t);
    if out == null {
      return null, u;
    }
    var n := Composing.StrLen(out, text);
    c, u := Parser.ParseRoot(lib, out[..n]);
    lib.FreeBytes(out);
  }
}
