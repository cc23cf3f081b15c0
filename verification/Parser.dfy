// The parser over the heap: it writes into the nodes it is given, links new ones, and leaves
// the error pointer behind. Each method is proved against the functions of module Parse.
module Parser {
  import opened Bytes
  import opened Memory
  import opened Trees
  import Deleting
  import Lists
  import Json
  import Numbers
  import Parse
  import Strings
  import StringScans

  method SkipBlanks(text: bytes, i: nat) returns (j: nat)
    requires i <= |text|
    ensures j == Skip(text, i)
  {
    j := i;
    while IsSpace(At(text, j))
      invariant i <= j <= |text| && Skip(text, j) == Skip(text, i)
      decreases |text| - j
    {
      j := j + 1;
    }
  }

  // Accumulate a run of digits behind the digits w already read.
  method ReadDigits(text: bytes, p: nat, n0: real, ghost w: bytes) returns (q: nat, n: real)
    requires p <= |text| && Numbers.AllDigits(w) && n0 == Numbers.NatOf(w) as real
    ensures q == Numbers.DigitsEnd(text, p)
    ensures n == Numbers.NatOf(w + text[p..q]) as real
  {
    hide Numbers.NatOf, Numbers.AllDigits;
    q, n := p, n0;
    assert w + text[p..p] == w;
    while IsDigit(At(text, q))
      invariant p <= q <= |text| && Numbers.DigitsEnd(text, q) == Numbers.DigitsEnd(text, p)
      invariant Numbers.AllDigits(w + text[p..q]) && n == Numbers.NatOf(w + text[p..q]) as real
      decreases |text| - q
    {
      var d := text[q];
      assert w + text[p..q + 1] == (w + text[p..q]) + [d];
      Numbers.NatOfSnoc(w + text[p..q], d);
      n := n * 10.0 + (d - 48) as real;
      q := q + 1;
    }
  }

  method ReadExponent(text: bytes, p: nat) returns (q: nat, n: nat)
    requires p <= |text|
    ensures q == Numbers.DigitsEnd(text, p) && n == Numbers.NatOf(text[p..q])
  {
    hide Numbers.NatOf, Numbers.AllDigits;
    q, n := p, 0;
    assert text[p..p] == [] && Numbers.AllDigits([]) && Numbers.NatOf([]) == 0 by { Numbers.NoDigits(); }
    while IsDigit(At(text, q))
      invariant p <= q <= |text| && Numbers.DigitsEnd(text, q) == Numbers.DigitsEnd(text, p)
      invariant Numbers.AllDigits(text[p..q]) && n == Numbers.NatOf(text[p..q])
      decreases |text| - q
    {
      var d := text[q];
      assert text[p..q + 1] == text[p..q] + [d];
      Numbers.NatOfSnoc(text[p..q], d);
      n := n * 10 + (d - 48);
      q := q + 1;
    }
  }

  // The exponent part: the signed exponent and the cursor behind it.
  method ReadScale(text: bytes, p: nat) returns (num: nat, e: int)
    requires p <= |text|
    ensures var exp := Numbers.ScanExp(text, p);
            num == p + |Numbers.ExpText(exp)| && e == Numbers.ExpValue(exp)
  {
    hide Numbers.NatOf, Numbers.AllDigits, Numbers.DigitsEnd, Occurs, Numbers.ScanExp;
    num, e := p, 0;
    if At(text, num) == 101 || At(text, num) == 69 {
      var signsubscale: int := 1;
      num := num + 1;
      if At(text, num) == 43 {
        num := num + 1;
      } else if At(text, num) == 45 {
        signsubscale, num := -1, num + 1;
      }
      ghost var q := num;
      var subscale;
      num, subscale := ReadExponent(text, num);
      e := subscale * signsubscale;
      ExponentRead(text, p, q, num);
    } else {
      NoExponent(text, p);
    }
  }

  lemma {:induction false} ExponentRead(text: bytes, p: nat, q: nat, num: nat)
    requires p < |text| && (text[p] == 101 || text[p] == 69)
    requires q == p + 1 + |Numbers.ExpSignText(Numbers.ScanExpSign(text, p + 1))| <= |text|
    requires num == Numbers.DigitsEnd(text, q)
    ensures Numbers.ScanExp(text, p) == Numbers.Exp(text[p], Numbers.ScanExpSign(text, p + 1), text[q..num])
  {
  }

  lemma NoExponent(text: bytes, p: nat)
    requires p <= |text| && At(text, p) != 101 && At(text, p) != 69
    ensures Numbers.ScanExp(text, p) == Numbers.NoExp
  {
  }

  // The fraction part: the digits go on accumulating, scale counts them down.
  method ReadFraction(text: bytes, p: nat, n0: real, ghost w: bytes) returns (num: nat, n: real, scale: int)
    requires p <= |text| && Numbers.AllDigits(w) && n0 == Numbers.NatOf(w) as real
    ensures var frac := Numbers.ScanFrac(text, p);
            num == p + |Numbers.FracText(frac)| && n == Numbers.NatOf(w + frac) as real && scale == -|frac|
  {
    num, n, scale := p, n0, 0;
    if At(text, num) == 46 && IsDigit(Numbers.Behind(text, num)) {
      var start := num + 1;
      num, n := ReadDigits(text, start, n, w);
      scale := -(num - start);
    } else {
      assert w + [] == w;
    }
  }

  // The digits before the fraction; a leading zero stands alone.
  method ReadWhole(text: bytes, p: nat) returns (num: nat, n: real)
    requires p <= |text|
    ensures var whole := Numbers.ScanWhole(text, p);
            num == p + |whole| && n == Numbers.NatOf(whole) as real
  {
    num, n := p, 0.0;
    if IsDigit(At(text, num)) && At(text, num) != 48 {
      num, n := ReadDigits(text, num, n, []);
      assert [] + text[p..num] == text[p..num];
    }
  }

  // parse_number: sign, zero, digits, fraction, exponent, and the value in exact arithmetic.
  method ParseNumber(item: Node, text: bytes, pos: nat) returns (num: nat)
    requires pos < |text| && Numbers.Starts(text[pos])
    modifies item`typ, item`valueint, item`valuedouble
    ensures Parse.ParseNumber(text, pos) == Parse.Ok(Json.Num(item.valuedouble), num)
    ensures item.typ == TYPE_NUMBER && item.valueint == Numbers.IntOf(item.valuedouble)
  {
    hide Numbers.ScanWhole, Numbers.ScanFrac, Numbers.ScanExp, Numbers.DigitsEnd, Numbers.Value, Numbers.Wf,
         Numbers.Pow10, Parse.ParseNumber;
    var n, sign, scale, exponent := 0.0, 1.0, 0, 0;
    num := pos;
    if At(text, num) == 45 {
      sign, num := -1.0, num + 1;
    }
    ghost var p1 := num;
    if At(text, num) == 48 {
      num := num + 1;
    }
    ghost var p2 := num;
    num, n := ReadWhole(text, num);
    ghost var whole, p3 := Numbers.ScanWhole(text, p2), num;
    num, n, scale := ReadFraction(text, num, n, whole);
    ghost var frac, p4 := Numbers.ScanFrac(text, p3), num;
    num, exponent := ReadScale(text, num);
    ghost var tok := Numbers.NumTok(p1 > pos, p2 > p1, whole, frac, Numbers.ScanExp(text, p4));
    TokenRead(text, pos, tok, p1, p2, p3, p4, num);
    n := Scaled(sign, n, scale + exponent, tok);
    item.valuedouble := n;
    item.valueint := Numbers.IntOf(n);
    item.typ := TYPE_NUMBER;
  }

  // number = +/- number.fraction * 10^+/- exponent
  method Scaled(sign: real, n: real, e: int, ghost tok: Numbers.NumTok) returns (v: real)
    requires Numbers.Wf(tok) && sign == if tok.neg then -1.0 else 1.0
    requires n == Numbers.NatOf(tok.whole + tok.frac) as real && e == Numbers.ExpValue(tok.exp) - |tok.frac|
    ensures v == Numbers.Value(tok)
  {
    hide Numbers.Pow10, Numbers.NatOf, Numbers.ExpValue;
    v := sign * n * Numbers.Pow10(e);
  }

  lemma {:induction false} TokenRead(text: bytes, pos: nat, tok: Numbers.NumTok, p1: nat, p2: nat, p3: nat, p4: nat,
          num: nat)
    requires pos < |text| && Numbers.Starts(text[pos])
    requires Numbers.Stages(text, pos, tok, p1, p2, p3, p4) && num == p4 + |Numbers.ExpText(tok.exp)|
    ensures Numbers.Wf(tok) && Parse.ParseNumber(text, pos) == Parse.Ok(Json.Num(Numbers.Value(tok)), num)
  {
    Numbers.StagesAreScan(text, pos, tok, p1, p2, p3, p4);
    hide Numbers.Scan, Numbers.Text, Numbers.Wf, Numbers.ScanWhole, Numbers.ScanFrac, Numbers.ScanExp;
    Numbers.ScanSound(text, pos, tok);
    Numbers.TextLength(tok);
  }

  // parse_string: measure, allocate, decode; the text becomes the item's value.
  method ParseString(lib: Library, item: Node, text: bytes, pos: nat) returns (r: Option<nat>, ghost b: Buf)
    requires NulFree(text) && pos <= |text|
    requires At(text, pos) == Strings.QUOTE ==> Strings.Complete(text, pos + 1)
    modifies lib`live, lib`faults, lib`ep, item`typ, item`valuestring
    ensures lib.faults >= old(lib.faults) && (lib.reliable ==> lib.faults == old(lib.faults))
    ensures r.Some? ==> && pos < |text| && text[pos] == Strings.QUOTE && r.value == Strings.AfterLiteral(text, pos + 1)
                        && lib.faults == old(lib.faults) && lib.ep == old(lib.ep)
    ensures r.Some? ==> && b.Buf? && fresh(b.arr) && b.chars == Strings.Decode(text, pos + 1)
                        && HoldsBuf(b, item.valuestring) && item.typ == TYPE_STRING
                        && lib.live == old(lib.live) + {b.arr}
                        && b.arr.Length == Strings.MeasureLen(text, pos + 1) + 1
    ensures r.None? ==> && b == NoBuf && lib.live == old(lib.live)
                        && item.typ == old(item.typ) && item.valuestring == old(item.valuestring)
    ensures r.None? && lib.faults == old(lib.faults) ==> At(text, pos) != Strings.QUOTE && lib.ep == Some(pos)
    ensures r.None? && lib.faults > old(lib.faults) ==> At(text, pos) == Strings.QUOTE && lib.ep == old(lib.ep)
  {
    b := NoBuf;
    if At(text, pos) != Strings.QUOTE {
      lib.ep := Some(pos);
      return None, b;
    }
    var len := StringScans.Measure(text, pos + 1);
    var out := lib.NewBytes(len + 1);
    if out == null {
      return None, b;
    }
    Strings.SameClose(text, pos + 1);
    Strings.DecodeNulFree(text, pos + 1);
    var ptr, end := StringScans.DecodeInto(out, text, pos + 1);
    out[end] := 0;
    assert out[..end] == Strings.Decode(text, pos + 1);
    if At(text, ptr) == Strings.QUOTE {
      ptr := ptr + 1;
    }
    item.valuestring := out;
    item.typ := TYPE_STRING;
    b := Buf(out, Strings.Decode(text, pos + 1));
    r := Some(ptr);
  }

  // One of the seven types, without flags; of a number the integer is the converted value, of
  // true it is one.
  predicate Typed(typ: int, ival: int, num: real) {
    0 <= typ <= 6 && (typ == TYPE_NUMBER ==> ival == Numbers.IntOf(num)) && (typ == TYPE_TRUE ==> ival == 1)
  }

  // An item with nothing in it yet; its name, if any, is nm.
  ghost predicate Empty(item: Node, nm: Buf)
    reads item, BufObjs(nm)
  {
    item.child == null && item.valuestring == null && Typed(item.typ, item.valueint, item.valuedouble)
      && HoldsBuf(nm, item.name)
  }

  // t is what item holds now; nothing in it is a reference, and its types are the library's.
  ghost predicate Built(item: Node, nm: Buf, t: Tree)
    reads Owned(t)
  {
    t.node == item && t.name == nm && Holds(t, false) && Tidy(t) && Plain(t)
  }

  ghost predicate Plain(t: Tree)
    decreases t, 1
  {
    Typed(t.typ, t.ival, t.num) && PlainAll(t.kids)
  }

  ghost predicate PlainAll(ts: seq<Tree>)
    decreases ts, 0
  {
    |ts| == 0 || (Plain(ts[0]) && PlainAll(ts[1..]))
  }

  // The item as a tree without children.
  ghost function Leaf(item: Node, b: Buf, nm: Buf): Tree
    reads item
  {
    Tree(item, item.typ, item.valueint, item.valuedouble, b, nm, [])
  }

  // What an item without children stands for.
  function LeafValue(typ: int, num: real, text: Option<bytes>): Json.Value
    requires 0 <= typ <= 6
  {
    [Json.False, Json.True, Json.Null, Json.Num(num), Json.Str(text), Json.Arr([]), Json.Obj([])][typ]
  }

  lemma {:induction false} LeafBuilt(item: Node, b: Buf, nm: Buf)
    requires HoldsBuf(b, item.valuestring) && HoldsBuf(nm, item.name) && BufObjs(b) !! BufObjs(nm)
    requires item.child == null && Typed(item.typ, item.valueint, item.valuedouble)
    ensures Built(item, nm, Leaf(item, b, nm)) && Inner(Leaf(item, b, nm), false) == BufObjs(b)
    ensures Leaf(item, b, nm).node == item
    ensures ToJson(Leaf(item, b, nm)) == LeafValue(item.typ, item.valuedouble, BufText(b))
  {
    var t := Leaf(item, b, nm);
    assert |t.kids| == 0 && OwnedAll(t.kids) == {};
    assert HoldsList(t.kids, item.child, false);
    assert TidyAll(t.kids) && PlainAll(t.kids) && ToItems(t.kids) == [] && ToMembers(t.kids) == [];
  }

  // What a parse must leave behind: the cursor and the tree of a success, the error position of
  // a failure, and neither when an allocation failed on the way.
  ghost predicate Outcome(spec: Parse.Result, r: Option<nat>, v: Json.Value, faulted: bool, before: Option<nat>,
          ep: Option<nat>) {
    if r.Some? then !faulted && ep == before && spec == Parse.Ok(v, r.value)
    else if faulted then ep == before
    else spec.Fail? && ep == Some(spec.at)
  }

  // The three keywords: the length of the one that stands at the cursor, or nothing.
  method ParseWord(item: Node, text: bytes, pos: nat) returns (len: nat)
    requires pos <= |text| && Typed(item.typ, item.valueint, item.valuedouble)
    modifies item`typ, item`valueint
    ensures Typed(item.typ, item.valueint, item.valuedouble)
    ensures len > 0 ==> Parse.ParseValue(text, pos) == Parse.Ok(LeafValue(item.typ, item.valuedouble, None), pos + len)
    ensures len == 0 ==> && !Occurs(text, pos, Json.NULL_WORD) && !Occurs(text, pos, Json.FALSE_WORD)
                         && !Occurs(text, pos, Json.TRUE_WORD)
                         && item.typ == old(item.typ) && item.valueint == old(item.valueint)
  {
    hide Parse.ParseArray, Parse.ParseObject, Parse.ParseNumber, Parse.ParseString;
    len := 0;
    if Occurs(text, pos, Json.NULL_WORD) {
      item.typ := TYPE_NULL;
      len := 4;
    } else if Occurs(text, pos, Json.FALSE_WORD) {
      item.typ := TYPE_FALSE;
      len := 5;
    } else if Occurs(text, pos, Json.TRUE_WORD) {
      item.typ, item.valueint := TYPE_TRUE, 1;
      len := 4;
    }
  }

  method ParseValue(lib: Library, item: Node, text: bytes, pos: nat, ghost nm: Buf)
    returns (r: Option<nat>, ghost t: Tree)
    requires NulFree(text) && pos <= |text| && Parse.ParseValue(text, pos) != Parse.Overrun
    requires Empty(item, nm)
    modifies lib`live, lib`faults, lib`ep
    modifies item`child, item`typ, item`valuestring, item`valueint, item`valuedouble
    ensures t.node == item && t.name == nm && Built(item, nm, t)
    ensures fresh(Inner(t, false)) && lib.live == old(lib.live) + Inner(t, false)
    ensures lib.faults >= old(lib.faults) && (lib.reliable ==> lib.faults == old(lib.faults))
    ensures Outcome(Parse.ParseValue(text, pos), r, ToJson(t), lib.faults > old(lib.faults), old(lib.ep), lib.ep)
    decreases |text| - pos, 1
  {
    hide Built, Inner, ToJson, Parse.ParseArray, Parse.ParseObject, Parse.ParseNumber, Strings.Complete, Strings.Decode;
    var word := ParseWord(item, text, pos);
    if word > 0 {
      LeafBuilt(item, NoBuf, nm);
      r, t := Some(pos + word), Leaf(item, NoBuf, nm);
    } else if At(text, pos) == Strings.QUOTE {
      ghost var b;
      r, b := ParseString(lib, item, text, pos);
      LeafBuilt(item, b, nm);
      t := Leaf(item, b, nm);
    } else if Numbers.Starts(At(text, pos)) {
      var num := ParseNumber(item, text, pos);
      LeafBuilt(item, NoBuf, nm);
      r, t := Some(num), Leaf(item, NoBuf, nm);
    } else if At(text, pos) == Json.LBRACKET {
      r, t := ParseArray(lib, item, text, pos, nm);
    } else if At(text, pos) == Json.LBRACE {
      r, t := ParseObject(lib, item, text, pos, nm);
    } else {
      lib.ep := Some(pos);
      LeafBuilt(item, NoBuf, nm);
      r, t := None, Leaf(item, NoBuf, nm);
    }
  }

  method ParseArray(lib: Library, item: Node, text: bytes, pos: nat, ghost nm: Buf)
    returns (r: Option<nat>, ghost t: Tree)
    requires NulFree(text) && pos < |text| && text[pos] == Json.LBRACKET
    requires Parse.ParseArray(text, pos) != Parse.Overrun && Empty(item, nm)
    modifies lib`live, lib`faults, lib`ep, item`typ, item`child
    ensures t.node == item && t.name == nm && Built(item, nm, t)
    ensures fresh(Inner(t, false)) && lib.live == old(lib.live) + Inner(t, false)
    ensures lib.faults >= old(lib.faults) && (lib.reliable ==> lib.faults == old(lib.faults))
    ensures Outcome(Parse.ParseArray(text, pos), r, ToJson(t), lib.faults > old(lib.faults), old(lib.ep), lib.ep)
    decreases |text| - pos, 0
  {
    hide Parse.ParseElems, Growing, Built, Inner, FootAll, ToJson, ToItems;
    item.typ := TYPE_ARRAY;
    var value := SkipBlanks(text, pos + 1);
    if At(text, value) == Json.RBRACKET {
      LeafBuilt(item, NoBuf, nm);
      return Some(value + 1), Leaf(item, NoBuf, nm);
    }
    ghost var kids;
    r, kids := ParseElems(lib, item, text, value);
    t := Tree(item, item.typ, item.valueint, item.valuedouble, NoBuf, nm, kids);
    ListBuilt(item, nm, kids, t);
  }

  // An array or object item that holds the list kids.
  lemma {:induction false} ListBuilt(item: Node, nm: Buf, kids: seq<Tree>, t: Tree)
    requires Growing(item, kids) && item.valuestring == null && HoldsBuf(nm, item.name)
    requires item !in OwnedAll(kids) && BufObjs(nm) !! OwnedAll(kids)
    requires item.typ == TYPE_ARRAY || item.typ == TYPE_OBJECT
    requires t == Tree(item, item.typ, item.valueint, item.valuedouble, NoBuf, nm, kids)
    ensures Built(item, nm, t) && Inner(t, false) == OwnedAll(kids)
    ensures item.typ == TYPE_ARRAY ==> ToJson(t) == Json.Arr(ToItems(kids))
    ensures item.typ == TYPE_OBJECT ==> ToJson(t) == Json.Obj(ToMembers(kids))
  {
  }

  // The list an array or object item is being given: linked from item.child, owned, all of it
  // allocated since the list was begun.
  ghost predicate Growing(item: Node, kids: seq<Tree>)
    reads item, OwnedAll(kids)
  {
    HoldsList(kids, item.child, false) && TidyAll(kids) && PlainAll(kids)
  }

  // node is linked behind the items of the list; what it holds itself is left open.
  ghost predicate Extended(item: Node, kids: seq<Tree>, node: Node)
    reads item`child, OwnedAll(kids), node`next, node`prev
  {
    RootsInFoot(kids, false);
    HoldsAll(kids, false) && TidyAll(kids) && PlainAll(kids) && Linked(Roots(kids) + [node], item.child)
  }

  // The list with one more item at its end.
  lemma {:induction false} GrowOne(item: Node, kids: seq<Tree>, t: Tree)
    requires Extended(item, kids, t.node)
    requires Holds(t, false) && Tidy(t) && Plain(t) && Owned(t) !! OwnedAll(kids)
    ensures Growing(item, kids + [t])
    ensures OwnedAll(kids + [t]) == OwnedAll(kids) + ({t.node} + BufObjs(t.name) + Inner(t, false))
    ensures ToItems(kids + [t]) == ToItems(kids) + [ToJson(t)]
    ensures ToMembers(kids + [t]) == ToMembers(kids) + [ToMember(t)]
  {
    FootConcat(kids, [t], false);
    HoldsConcat(kids, [t], false);
    TidyConcat(kids, [t]);
    ItemsConcat(kids, [t]);
    PlainConcat(kids, [t]);
    FootOne(t, false);
    AllOne(t, false);
    assert PlainAll([t]) by { assert [t][1..] == []; }
    assert Roots(kids + [t]) == Roots(kids) + [t.node];
  }

  lemma {:induction false} PlainConcat(ts: seq<Tree>, us: seq<Tree>)
    ensures PlainAll(ts + us) <==> PlainAll(ts) && PlainAll(us)
    decreases |ts|
  {
    if |ts| == 0 {
      assert ts + us == us;
    } else {
      ConcatPeel(ts, us);
      PlainConcat(ts[1..], us);
    }
  }

  lemma FirstExtended(item: Node, child: Node)
    requires item.child == child && child.next == null && child.prev == null
    ensures Extended(item, [], child)
  {
    assert Roots([]) + [child] == [child];
  }

  lemma {:induction false} GrowingIs(item: Node, kids: seq<Tree>)
    ensures Growing(item, kids) <==>
      Linked(Roots(kids), item.child) && HoldsAll(kids, false) && TidyAll(kids) && PlainAll(kids)
    ensures forall n :: n in Roots(kids) ==> n in OwnedAll(kids)
  {
    hide Linked, FootAll, TidyAll, HoldsAll, PlainAll;
    RootsInFoot(kids, false);
  }

  // Link a new node behind the last item; the items keep what they hold.
  method Extend(lib: Library, item: Node, child: Node, newItem: Node, ghost kids: seq<Tree>)
    requires Growing(item, kids) && |kids| > 0 && child == kids[|kids| - 1].node
    requires newItem !in OwnedAll(kids) && newItem.next == null && item !in OwnedAll(kids) && item != newItem
    requires OwnedAll(kids) <= lib.live
    modifies child`next, newItem`prev
    ensures Extended(item, kids, newItem)
  {
    hide Growing, Linked, FootAll, Foot, TidyAll, HoldsAll, PlainAll;
    GrowingIs(item, kids);
    assert Roots(kids)[|kids| - 1] == child;
    Lists.SuffixObject(child, newItem, Roots(kids), item.child);
    HoldsRelinked(kids);
  }

  // The outcome once the elements acc are read and the cursor stands on the byte at j.
  ghost function AfterElem(s: bytes, j: nat, acc: seq<Json.Value>): Parse.Result
    requires j <= |s|
  {
    if At(s, j) == Json.COMMA then Parse.ParseElems(s, j + 1, acc)
    else if At(s, j) == Json.RBRACKET then Parse.Ok(Json.Arr(acc), j + 1)
    else Parse.Fail(j)
  }

  lemma {:induction false} ElemsTurn(s: bytes, k: nat, acc: seq<Json.Value>)
    requires k <= |s|
    ensures var e := Parse.ParseValue(s, Skip(s, k));
            Parse.ParseElems(s, k, acc) == if e.Ok? then AfterElem(s, Skip(s, e.pos), acc + [e.v]) else e
  {
    hide Parse.ParseValue;
  }

  lemma NothingYet(item: Node)
    requires item.child == null
    ensures Growing(item, [])
  {
    NoItems();
  }

  // An element into child, which is linked behind the items: the cursor on the byte behind it.
  method AddElem(lib: Library, item: Node, child: Node, text: bytes, k: nat, ghost kids: seq<Tree>)
    returns (r: Option<nat>, ghost more: seq<Tree>)
    requires NulFree(text) && k <= |text| && Parse.ParseElems(text, k, ToItems(kids)) != Parse.Overrun
    requires Extended(item, kids, child) && Empty(child, NoBuf) && child != item
    requires child !in OwnedAll(kids) && item !in OwnedAll(kids) && lib !in OwnedAll(kids)
    requires OwnedAll(kids) + {child} <= lib.live
    modifies lib`live, lib`faults, lib`ep
    modifies child`child, child`typ, child`valuestring, child`valueint, child`valuedouble, child`name
    ensures Growing(item, more) && |more| == |kids| + 1 && more[|kids|].node == child
    ensures fresh(OwnedAll(more) - OwnedAll(kids) - {child})
    ensures OwnedAll(kids) + {child} <= OwnedAll(more) && lib.live == old(lib.live) + OwnedAll(more)
    ensures lib.faults >= old(lib.faults) && (lib.reliable ==> lib.faults == old(lib.faults))
    ensures r.Some? ==> k < r.value <= |text| && lib.faults == old(lib.faults) && lib.ep == old(lib.ep)
    ensures r.Some? ==> Parse.ParseElems(text, k, ToItems(kids)) == AfterElem(text, r.value, ToItems(more))
    ensures r.None? ==>
      Outcome(Parse.ParseElems(text, k, ToItems(kids)), r, Json.Null, lib.faults > old(lib.faults), old(lib.ep), lib.ep)
    decreases |text| - k, 3
  {
    hide Parse.ParseValue, Parse.ParseElems, Parse.ReadName, MemberAt, Growing, Extended, Holds, HoldsAll, Tidy,
         TidyAll, Plain, PlainAll, Linked, FootAll, Inner, ToJson, ToItems, AfterElem;
    ElemsTurn(text, k, ToItems(kids));
    ghost var t;
    var value := SkipBlanks(text, k);
    r, t := ParseValue(lib, child, text, value, NoBuf);
    GrowOne(item, kids, t);
    more := kids + [t];
    if r.Some? {
      var value := SkipBlanks(text, r.value);
      r := Some(value);
    }
  }

  // A comma: a new node is hung behind the last one, and the next element is read into it.
  method NextElem(lib: Library, item: Node, last: Node, text: bytes, value: nat, ghost kids: seq<Tree>)
    returns (r: Option<nat>, child: Node, ghost more: seq<Tree>)
    requires NulFree(text) && value < |text| && text[value] == Json.COMMA
    requires Parse.ParseElems(text, value + 1, ToItems(kids)) != Parse.Overrun
    requires Growing(item, kids) && |kids| > 0 && last == kids[|kids| - 1].node && last in OwnedAll(kids)
    requires item !in OwnedAll(kids) && lib !in OwnedAll(kids) && OwnedAll(kids) <= lib.live
    modifies lib`live, lib`faults, lib`ep, last`next
    ensures Growing(item, more) && fresh(OwnedAll(more) - OwnedAll(kids)) && OwnedAll(kids) <= OwnedAll(more)
    ensures lib.live == old(lib.live) + OwnedAll(more)
    ensures lib.faults >= old(lib.faults) && (lib.reliable ==> lib.faults == old(lib.faults))
    ensures r.Some? ==> && |more| > |kids| && child == more[|more| - 1].node && child in OwnedAll(more)
                        && value < r.value <= |text| && lib.faults == old(lib.faults) && lib.ep == old(lib.ep)
                        && Parse.ParseElems(text, value + 1, ToItems(kids)) == AfterElem(text, r.value, ToItems(more))
    ensures r.None? ==>
      Outcome(Parse.ParseElems(text, value + 1, ToItems(kids)), r, Json.Null, lib.faults > old(lib.faults),
        old(lib.ep), lib.ep)
    decreases |text| - value - 1, 4
  {
    hide Parse.ParseElems, Growing, Extended, FootAll, ToItems, AfterElem;
    child := last;
    var newItem := lib.NewItem();
    if newItem == null {
      return None, child, kids;
    }
    Extend(lib, item, last, newItem, kids);
    child := newItem;
    r, more := AddElem(lib, item, child, text, value + 1, kids);
  }

  // The elements of a non-empty array: the first, then one more for every comma.
  method ParseElems(lib: Library, item: Node, text: bytes, k: nat) returns (r: Option<nat>, ghost kids: seq<Tree>)
    requires NulFree(text) && k <= |text| && Parse.ParseElems(text, k, []) != Parse.Overrun
    requires item.child == null
    modifies lib`live, lib`faults, lib`ep, item`child
    ensures Growing(item, kids) && fresh(OwnedAll(kids)) && lib.live == old(lib.live) + OwnedAll(kids)
    ensures lib.faults >= old(lib.faults) && (lib.reliable ==> lib.faults == old(lib.faults))
    ensures Outcome(Parse.ParseElems(text, k, []), r, Json.Arr(ToItems(kids)), lib.faults > old(lib.faults),
      old(lib.ep), lib.ep)
    decreases |text| - k, 4
  {
    hide Parse.ParseElems, Growing, Extended, FootAll, ToItems;
    kids := [];
    NoItems();
    NothingYet(item);
    var child := lib.NewItem();
    item.child := child;
    if child == null {
      NothingYet(item);
      return None, kids;
    }
    FirstExtended(item, child);
    r, kids := AddElem(lib, item, child, text, k, kids);
    if r.None? {
      return;
    }
    var value := r.value;
    while At(text, value) == Json.COMMA
      invariant k < value <= |text| && |kids| > 0 && child == kids[|kids| - 1].node && child in OwnedAll(kids)
      invariant Growing(item, kids) && fresh(OwnedAll(kids)) && lib.live == old(lib.live) + OwnedAll(kids)
      invariant lib.faults == old(lib.faults) && lib.ep == old(lib.ep)
      invariant Parse.ParseElems(text, k, []) == AfterElem(text, value, ToItems(kids))
      decreases |text| - value
    {
      r, child, kids := NextElem(lib, item, child, text, value, kids);
      if r.None? {
        return;
      }
      value := r.value;
    }
    if At(text, value) == Json.RBRACKET {
      return Some(value + 1), kids;
    }
    lib.ep := Some(value);
    r := None;
  }

  method ParseObject(lib: Library, item: Node, text: bytes, pos: nat, ghost nm: Buf)
    returns (r: Option<nat>, ghost t: Tree)
    requires NulFree(text) && pos < |text| && text[pos] == Json.LBRACE
    requires Parse.ParseObject(text, pos) != Parse.Overrun && Empty(item, nm)
    modifies lib`live, lib`faults, lib`ep, item`typ, item`child
    ensures t.node == item && t.name == nm && Built(item, nm, t)
    ensures fresh(Inner(t, false)) && lib.live == old(lib.live) + Inner(t, false)
    ensures lib.faults >= old(lib.faults) && (lib.reliable ==> lib.faults == old(lib.faults))
    ensures Outcome(Parse.ParseObject(text, pos), r, ToJson(t), lib.faults > old(lib.faults), old(lib.ep), lib.ep)
    decreases |text| - pos, 0
  {
    hide Parse.ParseMembers, Growing, Built, Inner, FootAll, ToJson, ToMembers;
    item.typ := TYPE_OBJECT;
    var value := SkipBlanks(text, pos + 1);
    if At(text, value) == Json.RBRACE {
      LeafBuilt(item, NoBuf, nm);
      return Some(value + 1), Leaf(item, NoBuf, nm);
    }
    ghost var kids;
    r, kids := ParseMembers(lib, item, text, value);
    t := Tree(item, item.typ, item.valueint, item.valuedouble, NoBuf, nm, kids);
    ListBuilt(item, nm, kids, t);
  }

  // The outcome of reading one member at k: its name, then its value up to the byte behind it.
  ghost function MemberAt(s: bytes, k: nat): (r: Parse.Result)
    requires k <= |s|
    ensures Parse.InText(s, k, r)
  {
    match Parse.ReadName(s, k)
    case NoName(at) => Parse.Fail(at)
    case NameOverrun => Parse.Overrun
    case Name(_, next) => Parse.ParseValue(s, Skip(s, next))
  }

  // One member into a new node: the name is read as a text and moved to the node's name.
  method ParseMember(lib: Library, child: Node, text: bytes, k: nat) returns (r: Option<nat>, ghost t: Tree)
    requires NulFree(text) && k <= |text| && MemberAt(text, k) != Parse.Overrun
    requires Empty(child, NoBuf)
    modifies lib`live, lib`faults, lib`ep
    modifies child`child, child`typ, child`valuestring, child`valueint, child`valuedouble, child`name
    ensures t.node == child && Built(child, t.name, t)
    ensures fresh(BufObjs(t.name) + Inner(t, false)) && lib.live == old(lib.live) + (BufObjs(t.name) + Inner(t, false))
    ensures lib.faults >= old(lib.faults) && (lib.reliable ==> lib.faults == old(lib.faults))
    ensures r.Some? ==> Parse.ReadName(text, k).Name? && BufText(t.name) == Some(Parse.ReadName(text, k).name)
    ensures Outcome(MemberAt(text, k), r, ToJson(t), lib.faults > old(lib.faults), old(lib.ep), lib.ep)
    decreases |text| - k, 2
  {
    hide Parse.ParseValue, Built, Inner, ToJson;
    ghost var b;
    r, b := ParseName(lib, child, text, k);
    if r.None? {
      LeafBuilt(child, NoBuf, b);
      return None, Leaf(child, NoBuf, b);
    }
    var value := SkipBlanks(text, r.value);
    r, t := ParseValue(lib, child, text, value, b);
  }

  // The name of a member and its colon: the text that was read becomes the node's name.
  method ParseName(lib: Library, child: Node, text: bytes, k: nat) returns (r: Option<nat>, ghost b: Buf)
    requires NulFree(text) && k <= |text| && Parse.ReadName(text, k) != Parse.NameOverrun
    requires Empty(child, NoBuf)
    modifies lib`live, lib`faults, lib`ep, child`typ, child`valuestring, child`name
    ensures Empty(child, b) && fresh(BufObjs(b)) && lib.live == old(lib.live) + BufObjs(b)
    ensures lib.faults >= old(lib.faults) && (lib.reliable ==> lib.faults == old(lib.faults))
    ensures r.Some? ==> b.Buf? && Parse.ReadName(text, k) == Parse.Name(b.chars, r.value)
    ensures r.Some? ==> lib.faults == old(lib.faults) && lib.ep == old(lib.ep)
    ensures r.None? && lib.faults > old(lib.faults) ==> lib.ep == old(lib.ep)
    ensures r.None? && lib.faults == old(lib.faults) ==>
      Parse.ReadName(text, k).NoName? && lib.ep == Some(Parse.ReadName(text, k).at)
  {
    hide Strings.Complete, Strings.Decode, Strings.Close;
    var value := SkipBlanks(text, k);
    r, b := ParseString(lib, child, text, value);
    if r.None? {
      return;
    }
    value := SkipBlanks(text, r.value);
    child.name := child.valuestring;
    child.valuestring := null;
    if At(text, value) != Json.COLON {
      lib.ep := Some(value);
      return None, b;
    }
    r := Some(value + 1);
  }

  ghost function AfterMember(s: bytes, j: nat, acc: seq<Json.Member>): Parse.Result
    requires j <= |s|
  {
    if At(s, j) == Json.COMMA then Parse.ParseMembers(s, j + 1, acc)
    else if At(s, j) == Json.RBRACE then Parse.Ok(Json.Obj(acc), j + 1)
    else Parse.Fail(j)
  }

  lemma {:induction false} MembersTurn(s: bytes, k: nat, acc: seq<Json.Member>)
    requires k <= |s|
    ensures var e := MemberAt(s, k);
            Parse.ParseMembers(s, k, acc) ==
              if e.Ok? then
                AfterMember(s, Skip(s, e.pos), acc + [Json.Member(Some(Parse.ReadName(s, k).name), e.v)])
              else e
  {
    hide Parse.ParseValue, Parse.ReadName;
  }

  // A member into child, which is linked behind the items: the cursor on the byte behind it.
  method AddMember(lib: Library, item: Node, child: Node, text: bytes, k: nat, ghost kids: seq<Tree>)
    returns (r: Option<nat>, ghost more: seq<Tree>)
    requires NulFree(text) && k <= |text| && Parse.ParseMembers(text, k, ToMembers(kids)) != Parse.Overrun
    requires Extended(item, kids, child) && Empty(child, NoBuf) && child != item
    requires child !in OwnedAll(kids) && item !in OwnedAll(kids) && lib !in OwnedAll(kids)
    requires OwnedAll(kids) + {child} <= lib.live
    modifies lib`live, lib`faults, lib`ep
    modifies child`child, child`typ, child`valuestring, child`valueint, child`valuedouble, child`name
    ensures Growing(item, more) && |more| == |kids| + 1 && more[|kids|].node == child
    ensures fresh(OwnedAll(more) - OwnedAll(kids) - {child})
    ensures OwnedAll(kids) + {child} <= OwnedAll(more) && lib.live == old(lib.live) + OwnedAll(more)
    ensures lib.faults >= old(lib.faults) && (lib.reliable ==> lib.faults == old(lib.faults))
    ensures r.Some? ==> k < r.value <= |text| && lib.faults == old(lib.faults) && lib.ep == old(lib.ep)
    ensures r.Some? ==> Parse.ParseMembers(text, k, ToMembers(kids)) == AfterMember(text, r.value, ToMembers(more))
    ensures r.None? ==>
      Outcome(Parse.ParseMembers(text, k, ToMembers(kids)), r, Json.Null, lib.faults > old(lib.faults),
        old(lib.ep), lib.ep)
    decreases |text| - k, 3
  {
    hide Parse.ParseValue, Parse.ParseMembers, Parse.ReadName, MemberAt, Growing, Extended, Holds, HoldsAll, Tidy,
         TidyAll, Plain, PlainAll, Linked, FootAll, Inner, ToJson, ToMembers, AfterMember;
    MembersTurn(text, k, ToMembers(kids));
    ghost var t;
    r, t := ParseMember(lib, child, text, k);
    assert r.Some? ==> ToMember(t) == Json.Member(Some(Parse.ReadName(text, k).name), MemberAt(text, k).v);
    GrowOne(item, kids, t);
    more := kids + [t];
    if r.Some? {
      var value := SkipBlanks(text, r.value);
      r := Some(value);
    }
  }

  // A comma: a new node is hung behind the last one, and the next member is read into it.
  method NextMember(lib: Library, item: Node, last: Node, text: bytes, value: nat, ghost kids: seq<Tree>)
    returns (r: Option<nat>, child: Node, ghost more: seq<Tree>)
    requires NulFree(text) && value < |text| && text[value] == Json.COMMA
    requires Parse.ParseMembers(text, value + 1, ToMembers(kids)) != Parse.Overrun
    requires Growing(item, kids) && |kids| > 0 && last == kids[|kids| - 1].node && last in OwnedAll(kids)
    requires item !in OwnedAll(kids) && lib !in OwnedAll(kids) && OwnedAll(kids) <= lib.live
    modifies lib`live, lib`faults, lib`ep, last`next
    ensures Growing(item, more) && fresh(OwnedAll(more) - OwnedAll(kids)) && OwnedAll(kids) <= OwnedAll(more)
    ensures lib.live == old(lib.live) + OwnedAll(more)
    ensures lib.faults >= old(lib.faults) && (lib.reliable ==> lib.faults == old(lib.faults))
    ensures r.Some? ==> && |more| > |kids| && child == more[|more| - 1].node && child in OwnedAll(more)
                        && value < r.value <= |text| && lib.faults == old(lib.faults) && lib.ep == old(lib.ep)
                        && Parse.ParseMembers(text, value + 1, ToMembers(kids))
                           == AfterMember(text, r.value, ToMembers(more))
    ensures r.None? ==>
      Outcome(Parse.ParseMembers(text, value + 1, ToMembers(kids)), r, Json.Null, lib.faults > old(lib.faults),
        old(lib.ep), lib.ep)
    decreases |text| - value - 1, 4
  {
    hide Parse.ParseMembers, Growing, Extended, FootAll, ToMembers, AfterMember;
    child := last;
    var newItem := lib.NewItem();
    if newItem == null {
      return None, child, kids;
    }
    Extend(lib, item, last, newItem, kids);
    child := newItem;
    r, more := AddMember(lib, item, child, text, value + 1, kids);
  }

  method ParseMembers(lib: Library, item: Node, text: bytes, k: nat) returns (r: Option<nat>, ghost kids: seq<Tree>)
    requires NulFree(text) && k <= |text| && Parse.ParseMembers(text, k, []) != Parse.Overrun
    requires item.child == null
    modifies lib`live, lib`faults, lib`ep, item`child
    ensures Growing(item, kids) && fresh(OwnedAll(kids)) && lib.live == old(lib.live) + OwnedAll(kids)
    ensures lib.faults >= old(lib.faults) && (lib.reliable ==> lib.faults == old(lib.faults))
    ensures Outcome(Parse.ParseMembers(text, k, []), r, Json.Obj(ToMembers(kids)), lib.faults > old(lib.faults),
      old(lib.ep), lib.ep)
    decreases |text| - k, 4
  {
    hide Parse.ParseMembers, Growing, Extended, FootAll, ToMembers;
    kids := [];
    NoItems();
    NothingYet(item);
    var child := lib.NewItem();
    item.child := child;
    if child == null {
      NothingYet(item);
      return None, kids;
    }
    FirstExtended(item, child);
    r, kids := AddMember(lib, item, child, text, k, kids);
    if r.None? {
      return;
    }
    var value := r.value;
    while At(text, value) == Json.COMMA
      invariant k < value <= |text| && |kids| > 0 && child == kids[|kids| - 1].node && child in OwnedAll(kids)
      invariant Growing(item, kids) && fresh(OwnedAll(kids)) && lib.live == old(lib.live) + OwnedAll(kids)
      invariant lib.faults == old(lib.faults) && lib.ep == old(lib.ep)
      invariant Parse.ParseMembers(text, k, []) == AfterMember(text, value, ToMembers(kids))
      decreases |text| - value
    {
      r, child, kids := NextMember(lib, item, child, text, value, kids);
      if r.None? {
        return;
      }
      value := r.value;
    }
    if At(text, value) == Json.RBRACE {
      return Some(value + 1), kids;
    }
    lib.ep := Some(value);
    r := None;
  }

  // cJSON_Parse: a root item, the error pointer cleared, the value behind the leading blanks;
  // a failed parse deletes all that was built.
  method ParseRoot(lib: Library, text: bytes) returns (c: Node?, ghost t: Option<Tree>)
    requires NulFree(text) && Parse.ParseText(text) != Parse.Overrun
    modifies lib`live, lib`faults, lib`ep
    ensures c == null <==> t.None?
    ensures c != null ==> Built(c, NoBuf, t.value) && c.next == null && c.prev == null
    ensures c != null ==> fresh(Owned(t.value)) && lib.live == old(lib.live) + Owned(t.value)
    ensures c != null ==> Parse.ParseText(text).Ok? && ToJson(t.value) == Parse.ParseText(text).v
    ensures c != null ==> lib.ep == None && lib.faults == old(lib.faults)
    ensures c == null ==> lib.live == old(lib.live)
    ensures c == null ==> if lib.faults > old(lib.faults) then lib.ep == None
                          else Parse.ParseText(text).Fail? && lib.ep == Some(Parse.ParseText(text).at)
    ensures lib.reliable ==> lib.faults == old(lib.faults)
  {
    var item := lib.NewItem();
    lib.ep := None;
    if item == null {
      return null, None;
    }
    var start := SkipBlanks(text, 0);
    var r;
    ghost var tree;
    r, tree := ParseValue(lib, item, text, start, NoBuf);
    if r.None? {
      FootOne(tree, false);
      AllOne(tree, false);
      Deleting.Delete(lib, item, [tree]);
      return null, None;
    }
    return item, Some(tree);
  }
}
