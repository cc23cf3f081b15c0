// Items made from nothing: references to other items, leaves, and arrays filled in one call.
module Creators {
  import opened Bytes
  import opened Memory
  import opened Trees
  import opened Lists
  import opened Editors
  import Bits
  import Composing
  import Json
  import Numbers

  // typ | cJSON_IsReference
  function WithFlag(typ: int): int {
    if IsRef(typ) then typ else typ + IS_REFERENCE
  }

  // Bit 8 is set, the others stay.
  lemma FlagIsBit(typ: nat)
    ensures WithFlag(typ) == Bits.Or(typ, 256)
  {
    hide Bits.Or, Bits.Shl;
    var h, low := typ / 256, typ % 256;
    EighthPlace(h);
    EighthPlace(1);
    EighthPlace(Bits.Or(h, 1));
    Bits.OrSplit(h, low, 1, 0, 8);
    Bits.OrOne(h);
    Bits.OrZero(low);
  }

  lemma EighthPlace(h: nat)
    ensures Bits.Shl(h, 8) == 256 * h
  {
    Bits.ShlValues(h);
  }

  // A reference stands for the same value under no name; its contents stay the other item's.
  ghost function AsReference(t: Tree, node: Node): Tree {
    Tree(node, WithFlag(t.typ), t.ival, t.num, t.text, NoBuf, t.kids)
  }

  lemma {:induction false} ReferenceMeans(t: Tree, node: Node)
    ensures ToJson(AsReference(t, node)) == ToJson(t)
    ensures IsRef(AsReference(t, node).typ) && Owned(AsReference(t, node)) == {node} && Tidy(AsReference(t, node))
  {
    assert WithFlag(t.typ) % 256 == t.typ % 256;
    assert IsRef(WithFlag(t.typ));
    assert Inner(AsReference(t, node), false) == {};
  }

  // create_reference; deep says whether the contents are looked at as well.
  method CreateReference(lib: Library, item: Node, ghost t: Tree, ghost deep: bool) returns (ref: Node?)
    requires item == t.node && Holds(t, deep) && Foot(t, deep) <= lib.live && lib !in Foot(t, deep)
    modifies lib`live, lib`faults
    ensures ref == null ==> !lib.reliable && lib.live == old(lib.live) && lib.faults == old(lib.faults) + 1
    ensures ref != null ==> && fresh(ref) && lib.live == old(lib.live) + {ref} && lib.faults == old(lib.faults)
                            && Loose(AsReference(t, ref)) && (deep ==> Holds(AsReference(t, ref), true))
                            && ref.next == null && ref.prev == null
  {
    hide Holds, Foot;
    ScalarsHeld(t, deep);
    ref := lib.NewItem();
    if ref == null {
      return;
    }
    ref.child, ref.typ, ref.valuestring := item.child, item.typ, item.valuestring;
    ref.valueint, ref.valuedouble := item.valueint, item.valuedouble;
    ref.name := null;
    ref.typ := WithFlag(ref.typ);
    ref.next, ref.prev := null, null;
    ReferenceMeans(t, ref);
    ContentsShared(t, ref, deep);
  }

  lemma {:induction false} ScalarsHeld(t: Tree, deep: bool)
    requires Holds(t, deep)
    ensures t.node.typ == t.typ && t.node.valueint == t.ival && t.node.valuedouble == t.num && t.node in Foot(t, deep)
  {
  }

  lemma {:induction false} ContentsShared(t: Tree, ref: Node, deep: bool)
    requires Holds(t, deep) && IsRef(WithFlag(t.typ)) && ref.name == null && ref.typ == WithFlag(t.typ)
    requires ref.child == t.node.child && ref.valuestring == t.node.valuestring
    requires ref.valueint == t.ival && ref.valuedouble == t.num
    ensures Holds(AsReference(t, ref), false) && (deep ==> Holds(AsReference(t, ref), true))
  {
  }

  // cJSON_AddItemReferenceToArray: one more item, sharing the contents of item, unless there
  // was no memory for it.
  method AddItemReferenceToArray(lib: Library, list: Node, item: Node, ghost ts: seq<Tree>, ghost t: Tree)
    returns (ghost add: seq<Tree>)
    requires Items(list, ts) && item == t.node && Holds(t, false)
    requires OwnedAll(ts) + Owned(t) + {list} <= lib.live && lib !in OwnedAll(ts) + Owned(t)
    modifies lib`live, lib`faults, list`child, OneNode(LastOf(ts))`next
    ensures Items(list, ts + add) && fresh(OwnedAll(add)) && lib.live == old(lib.live) + OwnedAll(add)
    ensures |add| == (if lib.faults == old(lib.faults) then 1 else 0) && (lib.reliable ==> |add| == 1)
    ensures |add| == 1 ==> add[0] == AsReference(t, add[0].node)
  {
    hide Items, Foot, FootAll, Inner, Tidy, Holds, HoldsAll, TidyAll;
    ItemsAre(list, ts);
    var ref := CreateReference(lib, item, t, false);
    add := [];
    NoItems();
    if ref != null {
      add := [AsReference(t, ref)];
      ReferenceMeans(t, ref);
      FootOne(AsReference(t, ref), false);
    }
    AddItemToArray(lib, list, ref, ts, add);
  }

  // An item without contents or with a text alone.
  ghost function LeafTree(node: Node, typ: int, ival: int, num: real, text: Buf): Tree {
    Tree(node, typ, ival, num, text, NoBuf, [])
  }

  lemma LeafLoose(t: Tree)
    requires t.kids == [] && t.name == NoBuf && !IsRef(t.typ)
    requires t.node.typ == t.typ && t.node.valueint == t.ival && t.node.valuedouble == t.num
    requires t.node.child == null && t.node.name == null && HoldsBuf(t.text, t.node.valuestring)
    ensures Loose(t) && Owned(t) == {t.node} + BufObjs(t.text)
  {
    NoItems();
    assert Inner(t, false) == BufObjs(t.text);
  }

  // cJSON_CreateNumber
  method CreateNumber(lib: Library, num: real) returns (item: Node?)
    modifies lib`live, lib`faults
    ensures item == null ==> !lib.reliable && lib.live == old(lib.live) && lib.faults == old(lib.faults) + 1
    ensures item != null ==> lib.faults == old(lib.faults)
    ensures item != null ==>
      var t := LeafTree(item, TYPE_NUMBER, Numbers.IntOf(num), num, NoBuf);
      fresh(item) && Loose(t) && Owned(t) == {item} && lib.live == old(lib.live) + {item} && item.next == null
        && item.prev == null
  {
    item := lib.NewItem();
    if item != null {
      item.typ := TYPE_NUMBER;
      item.valuedouble := num;
      item.valueint := Numbers.IntOf(num);
      LeafLoose(LeafTree(item, TYPE_NUMBER, Numbers.IntOf(num), num, NoBuf));
    }
  }

  // cJSON_CreateString: when the copy of the text fails the item is there all the same.
  method CreateString(lib: Library, text: array<byte>, ghost chars: bytes) returns (item: Node?, ghost b: Buf)
    requires CString(text, chars)
    modifies lib`live, lib`faults
    ensures item == null ==> !lib.reliable && lib.live == old(lib.live) && lib.faults == old(lib.faults) + 1
    ensures item != null ==> lib.faults == old(lib.faults) + if b.Buf? then 0 else 1
    ensures item != null ==>
      var t := LeafTree(item, TYPE_STRING, 0, 0.0, b);
      && fresh(item) && fresh(BufObjs(b)) && Loose(t) && Owned(t) == {item} + BufObjs(b)
         && lib.live == old(lib.live) + Owned(t)
      && item.next == null && item.prev == null && (if b.Buf? then b.chars == chars else !lib.reliable)
  {
    b := NoBuf;
    item := lib.NewItem();
    if item != null {
      item.typ := TYPE_STRING;
      var n := Composing.StrLen(text, chars);
      var copy := lib.StrDup(text[..n]);
      item.valuestring := copy;
      b := if copy == null then NoBuf else Buf(copy, chars);
      LeafLoose(LeafTree(item, TYPE_STRING, 0, 0.0, b));
    }
  }

  // cJSON_CreateArray
  method CreateArray(lib: Library) returns (item: Node?)
    modifies lib`live, lib`faults
    ensures item == null ==> !lib.reliable && lib.live == old(lib.live) && lib.faults == old(lib.faults) + 1
    ensures item != null ==> lib.faults == old(lib.faults)
    ensures item != null ==>
      fresh(item) && lib.live == old(lib.live) + {item} && item.next == null && item.prev == null
                             && Items(item, []) && Bare(item)
  {
    item := lib.NewItem();
    if item != null {
      item.typ := TYPE_ARRAY;
      NoItems();
      assert Roots([]) == [];
    }
  }

  // An array node but for its children.
  ghost predicate Bare(a: Node)
    reads a
  {
    a.typ == TYPE_ARRAY && a.valuestring == null && a.valueint == 0 && a.valuedouble == 0.0 && a.name == null
  }

  ghost function ArrayTree(a: Node, ts: seq<Tree>): Tree {
    Tree(a, TYPE_ARRAY, 0, 0.0, NoBuf, NoBuf, ts)
  }

  lemma {:induction false} ArrayLoose(a: Node, ts: seq<Tree>)
    requires Items(a, ts) && Bare(a)
    ensures Loose(ArrayTree(a, ts)) && Owned(ArrayTree(a, ts)) == {a} + OwnedAll(ts)
    ensures ToJson(ArrayTree(a, ts)) == Json.Arr(ToItems(ts))
  {
    hide HoldsAll, TidyAll, FootAll, Linked;
  }

  // The step the builders share: the first item hangs from the array, the others from the last.
  method Hang(ghost lib: Library, a: Node, first: bool, p: Node?, n: Node, ghost ts: seq<Tree>, ghost t: Tree)
    requires Items(a, ts) && Bare(a) && first == (|ts| == 0) && p == LastOf(ts) && n == t.node
    requires Loose(t) && n.next == null && n.prev == null && Owned(t) !! OwnedAll(ts) && a !in Owned(t)
    requires OwnedAll(ts) + Owned(t) <= lib.live
    modifies a`child, OneNode(LastOf(ts))`next, n`prev
    ensures Items(a, ts + [t]) && Bare(a) && ToItems(ts + [t]) == ToItems(ts) + [ToJson(t)]
  {
    hide FootAll, TidyAll, HoldsAll, Items, Linked, Foot, Tidy, Holds, ToItems, ToJson;
    ItemsAre(a, ts);
    Added(ts, t);
    NodeOwned(t);
    if first {
      a.child := n;
      assert ts + [t] == [t] && Roots([t]) == [n];
      OnlyOne(n);
    } else {
      assert p == Roots(ts)[|ts| - 1];
      SuffixObject(p, n, Roots(ts), a.child);
    }
    HoldsRelinked(ts);
    HoldsKept(t);
    ItemsAre(a, ts + [t]);
    Added(ts, t);
    ItemsConcat(ts, [t]);
    AllOne(t, false);
  }

  lemma LastOwned(ts: seq<Tree>)
    ensures OneNode(LastOf(ts)) <= OwnedAll(ts)
  {
    if |ts| > 0 {
      RootInFoot(ts, |ts| - 1, false);
    }
  }

  ghost function IntValues(numbers: seq<int>, count: nat): seq<Json.Value>
    requires count <= |numbers|
  {
    seq(count, i requires 0 <= i < count => Json.Num(numbers[i] as real))
  }

  ghost function NumberTree(n: Node, number: int): Tree {
    LeafTree(n, TYPE_NUMBER, Numbers.IntOf(number as real), number as real, NoBuf)
  }

  // cJSON_CreateIntArray. A failed allocation of an item goes unnoticed until the next item is
  // hung behind it: with two items or more the call crashes on a null pointer, with one it
  // returns an empty array.
  method CreateIntArray(lib: Library, numbers: seq<int>, count: int)
    returns (a: Node?, crashed: bool, ghost made: seq<Tree>)
    requires count <= |numbers|
    modifies lib`live, lib`faults
    ensures a == null ==> !crashed && lib.live == old(lib.live) && lib.faults == old(lib.faults) + 1
    ensures a != null ==> fresh(a) && fresh(OwnedAll(made)) && lib.live == old(lib.live) + {a} + OwnedAll(made)
    ensures crashed <==> a != null && lib.faults > old(lib.faults) && count >= 2
    ensures a != null && !crashed ==>
      && |made| == (if lib.faults > old(lib.faults) || count < 0 then 0 else count)
      && forall i :: 0 <= i < |made| ==> ToJson(made[i]) == Json.Num(numbers[i] as real)
    ensures a != null && !crashed ==>
      && Loose(ArrayTree(a, made)) && Owned(ArrayTree(a, made)) == {a} + OwnedAll(made)
      && ToJson(ArrayTree(a, made))
         == Json.Arr(IntValues(numbers, if lib.faults > old(lib.faults) || count < 0 then 0 else count))
    ensures lib.reliable ==> a != null && !crashed && lib.faults == old(lib.faults)
  {
    hide FootAll, Foot, Items, Holds, Tidy, ToItems;
    made, crashed := [], false;
    a := CreateArray(lib);
    if a == null {
      return;
    }
    var p: Node? := null;
    NoItems();
    var i := 0;
    while i < count
      invariant 0 <= i && (i == 0 || i <= count) && p == LastOf(made)
      invariant if lib.faults == old(lib.faults) then |made| == i
                else i == 1 && |made| == 0 && lib.faults > old(lib.faults) && !lib.reliable
      invariant Items(a, made) && Bare(a) && ToItems(made) == IntValues(numbers, |made|)
      invariant fresh(OwnedAll(made)) && a !in OwnedAll(made) && lib.live == old(lib.live) + {a} + OwnedAll(made)
    {
      var n := CreateNumber(lib, numbers[i] as real);
      if i > 0 && (p == null || n == null) {
        if n != null {
          made := [NumberTree(n, numbers[i])];
          FootOne(made[0], false);
        }
        return a, true, made;
      }
      if n != null {
        ghost var leaf := NumberTree(n, numbers[i]);
        Added(made, leaf);
        LastOwned(made);
        Hang(lib, a, i == 0, p, n, made, leaf);
        assert IntValues(numbers, i + 1) == IntValues(numbers, i) + [Json.Num(numbers[i] as real)];
        made := made + [leaf];
      }
      p := n;
      i := i + 1;
    }
    ArrayLoose(a, made);
    EachItem(made);
  }

  lemma EachItem(ts: seq<Tree>)
    ensures forall i :: 0 <= i < |ts| ==> ToItems(ts)[i] == ToJson(ts[i])
  {
    forall i | 0 <= i < |ts| ensures ToItems(ts)[i] == ToJson(ts[i]) {
      ItemAt(ts, i, false);
    }
  }

  // The items whose text is missing.
  ghost function Missing(ts: seq<Tree>): nat {
    if |ts| == 0 then 0 else Missing(ts[..|ts| - 1]) + if ts[|ts| - 1].text.NoBuf? then 1 else 0
  }

  lemma {:induction false} MissingMore(ts: seq<Tree>, t: Tree)
    ensures Missing(ts + [t]) == Missing(ts) + if t.text.NoBuf? then 1 else 0
  {
    assert (ts + [t])[..|ts|] == ts;
  }

  // The values of the items: the texts, or null where the copy failed.
  ghost function CopiedValues(ts: seq<Tree>, texts: seq<bytes>): seq<Json.Value>
    requires |ts| <= |texts|
  {
    seq(|ts|, i requires 0 <= i < |ts| => Json.Str(if ts[i].text.Buf? then Some(texts[i]) else None))
  }

  // cJSON_CreateStringArray. Of the failed allocations those that lost a text are told apart
  // from those that lost an item: only the latter crash the call.
  method CreateStringArray(lib: Library, strings: seq<array<byte>>, count: int, ghost texts: seq<bytes>)
    returns (a: Node?, crashed: bool, ghost made: seq<Tree>)
    requires count <= |strings| == |texts|
    requires forall i :: 0 <= i < |strings| ==> CString(strings[i], texts[i])
    modifies lib`live, lib`faults
    ensures a == null ==> !crashed && lib.live == old(lib.live) && lib.faults == old(lib.faults) + 1
    ensures a != null ==> fresh(a) && fresh(OwnedAll(made)) && lib.live == old(lib.live) + {a} + OwnedAll(made)
    ensures crashed <==> a != null && lib.faults > old(lib.faults) + Missing(made) && count >= 2
    ensures a != null && !crashed ==>
      && Loose(ArrayTree(a, made)) && Owned(ArrayTree(a, made)) == {a} + OwnedAll(made)
      && |made| == (if lib.faults > old(lib.faults) + Missing(made) || count < 0 then 0 else count)
      && ToJson(ArrayTree(a, made)) == Json.Arr(CopiedValues(made, texts))
    ensures a != null && !crashed ==> forall i :: 0 <= i < |made| ==>
      ToJson(made[i]) == Json.Str(if made[i].text.Buf? then Some(texts[i]) else None)
    ensures lib.reliable ==> a != null && !crashed && lib.faults == old(lib.faults)
  {
    hide FootAll, Foot, Items, Bare, Loose, Holds, Tidy, ToItems, ToJson, CString, Missing, CopiedValues;
    made, crashed := [], false;
    a := CreateArray(lib);
    if a == null {
      return;
    }
    var p: Node? := null;
    NoItems();
    NoneMissing(texts);
    var i := 0;
    while i < count
      invariant 0 <= i && (i == 0 || i <= count) && p == LastOf(made) && |made| <= i
      invariant if lib.faults == old(lib.faults) + Missing(made) then |made| == i
                else i == 1 && |made| == 0 && lib.faults > old(lib.faults) + Missing(made)
      invariant lib.reliable ==> lib.faults == old(lib.faults)
      invariant forall j :: 0 <= j < |strings| ==> CString(strings[j], texts[j])
      invariant Items(a, made) && Bare(a) && ToItems(made) == CopiedValues(made, texts)
      invariant fresh(OwnedAll(made)) && a !in OwnedAll(made) && lib.live == old(lib.live) + {a} + OwnedAll(made)
    {
      var n;
      ghost var b;
      n, b := CreateString(lib, strings[i], texts[i]);
      if i > 0 && (p == null || n == null) {
        if n != null {
          ghost var leaf := LeafTree(n, TYPE_STRING, 0, 0.0, b);
          MissingMore(made, leaf);
          assert made + [leaf] == [leaf];
          made := [leaf];
          FootOne(leaf, false);
        }
        return a, true, made;
      }
      if n != null {
        ghost var leaf := LeafTree(n, TYPE_STRING, 0, 0.0, b);
        MissingMore(made, leaf);
        Added(made, leaf);
        LastOwned(made);
        Hang(lib, a, i == 0, p, n, made, leaf);
        CopiedMore(made, leaf, texts);
        made := made + [leaf];
      }
      p := n;
      i := i + 1;
    }
    ArrayLoose(a, made);
    EachCopy(made, texts);
  }

  lemma EachCopy(ts: seq<Tree>, texts: seq<bytes>)
    requires |ts| <= |texts| && ToItems(ts) == CopiedValues(ts, texts)
    ensures forall i :: 0 <= i < |ts| ==> ToJson(ts[i]) == Json.Str(if ts[i].text.Buf? then Some(texts[i]) else None)
  {
    EachItem(ts);
  }

  lemma {:induction false} NoneMissing(texts: seq<bytes>)
    ensures Missing([]) == 0 && CopiedValues([], texts) == []
  {
  }

  lemma {:induction false} CopiedMore(ts: seq<Tree>, t: Tree, texts: seq<bytes>)
    requires |ts| < |texts| && t.typ == TYPE_STRING && (t.text.Buf? ==> t.text.chars == texts[|ts|])
    ensures CopiedValues(ts + [t], texts) == CopiedValues(ts, texts) + [ToJson(t)]
  {
  }
}
