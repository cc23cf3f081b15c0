// Looking members up by name, editing them by name, and sharing items by reference.
module Members {
  import opened Bytes
  import opened Memory
  import opened Trees
  import opened Lists
  import opened Editors
  import Composing

  // tolower, on ASCII.
  function Fold(c: byte): byte {
    if 65 <= c <= 90 then c + 32 else c
  }

  function Folded(s: bytes): (w: bytes)
    ensures |w| == |s| && forall i :: 0 <= i < |s| ==> w[i] == Fold(s[i])
  {
    seq(|s|, i requires 0 <= i < |s| => Fold(s[i]))
  }

  // Names agree when they are equal but for case; the null pointer agrees with itself alone.
  predicate SameName(a: Option<bytes>, b: Option<bytes>) {
    if a.Some? && b.Some? then Folded(a.value) == Folded(b.value) else a == b
  }

  // The same letters, each in either case, and otherwise the same bytes.
  predicate AlikeByte(a: byte, b: byte) {
    a == b || (65 <= a <= 90 && b == a + 32) || (65 <= b <= 90 && a == b + 32)
  }

  predicate Alike(a: bytes, b: bytes) {
    |a| == |b| && forall i :: 0 <= i < |a| ==> AlikeByte(a[i], b[i])
  }

  lemma FoldIff(a: byte, b: byte)
    ensures Fold(a) == Fold(b) <==> AlikeByte(a, b)
    ensures !(65 <= Fold(a) <= 90) && AlikeByte(a, Fold(a))
  {
  }

  lemma SameNameIff(a: Option<bytes>, b: Option<bytes>)
    ensures SameName(a, b) <==> if a.Some? && b.Some? then Alike(a.value, b.value) else a.None? && b.None?
  {
    if a.Some? && b.Some? {
      forall i | 0 <= i < |a.value| && i < |b.value|
        ensures Folded(a.value)[i] == Folded(b.value)[i] <==> AlikeByte(a.value[i], b.value[i])
      {
        FoldIff(a.value[i], b.value[i]);
      }
    }
  }

  // cJSON_strcasecmp: zero exactly when the names agree; otherwise the difference at the first
  // byte, k, where they do not, or 1 when just one of them is null.
  method StrCaseCmp(s1: array?<byte>, s2: array?<byte>, ghost b1: Buf, ghost b2: Buf) returns (r: int, ghost k: nat)
    requires HoldsBuf(b1, s1) && HoldsBuf(b2, s2)
    ensures r == 0 <==> SameName(BufText(b1), BufText(b2))
    ensures r == 0 <==> (b1.NoBuf? && b2.NoBuf?) || (b1.Buf? && b2.Buf? && Alike(b1.chars, b2.chars))
    ensures b1.NoBuf? != b2.NoBuf? ==> r == 1
    ensures r != 0 && b1.Buf? && b2.Buf? ==>
      && k <= |b1.chars| && k <= |b2.chars| && Folded(b1.chars[..k]) == Folded(b2.chars[..k])
      && r == Fold(At(b1.chars, k)) - Fold(At(b2.chars, k))
  {
    k := 0;
    SameNameIff(BufText(b1), BufText(b2));
    if s1 == null {
      return if s1 == s2 then 0 else 1, k;
    }
    if s2 == null {
      return 1, k;
    }
    assert forall j :: 0 <= j < |b1.chars| ==> s1[j] == s1[..|b1.chars|][j];
    assert forall j :: 0 <= j < |b2.chars| ==> s2[j] == s2[..|b2.chars|][j];
    var i := 0;
    while Fold(s1[i]) == Fold(s2[i])
      invariant 0 <= i <= |b1.chars| && i <= |b2.chars|
      invariant forall j :: 0 <= j < i ==> Fold(b1.chars[j]) == Fold(b2.chars[j])
      decreases |b1.chars| - i
    {
      if s1[i] == 0 {
        return 0, k;
      }
      i := i + 1;
    }
    k := i;
    r := Fold(s1[i]) - Fold(s2[i]);
    if |b1.chars| == |b2.chars| {
      assert Folded(b1.chars)[i] != Folded(b2.chars)[i];
    }
  }

  // The first item of that name, or the end of the list.
  function FirstMatch(ts: seq<Tree>, name: Option<bytes>): (k: nat)
    ensures k <= |ts| && (k < |ts| ==> SameName(BufText(ts[k].name), name))
    ensures forall i :: 0 <= i < k ==> !SameName(BufText(ts[i].name), name)
  {
    if |ts| == 0 || SameName(BufText(ts[0].name), name) then 0 else 1 + FirstMatch(ts[1..], name)
  }

  // No other index can be the first match.
  lemma {:induction false} FirstMatchIs(ts: seq<Tree>, name: Option<bytes>, k: nat)
    requires k <= |ts| && (k < |ts| ==> SameName(BufText(ts[k].name), name))
    requires forall i :: 0 <= i < k ==> !SameName(BufText(ts[i].name), name)
    ensures FirstMatch(ts, name) == k
  {
  }

  lemma NameHeld(list: Node, ts: seq<Tree>, i: nat)
    requires Items(list, ts) && i < |ts|
    ensures HoldsBuf(ts[i].name, ts[i].node.name)
  {
    ItemsAre(list, ts);
    ItemAt(ts, i, false);
  }

  // The loop of all the calls by name: the first match and its index.
  method Find(ghost lib: Library, list: Node, key: array?<byte>, ghost b: Buf, ghost ts: seq<Tree>)
    returns (c: Node?, i: nat)
    requires Items(list, ts) && HoldsBuf(b, key) && OwnedAll(ts) <= lib.live
    ensures i == FirstMatch(ts, BufText(b)) && c == NodeAt(ts, i)
  {
    hide FirstMatch, FootAll, HoldsAll, TidyAll, Items, SameName, Alike;
    ItemsAre(list, ts);
    FirstAt(ts, list.child);
    c, i := list.child, 0;
    while c != null
      invariant i <= |ts| && c == NodeAt(ts, i) && Items(list, ts)
      invariant forall j :: 0 <= j < i ==> !SameName(BufText(ts[j].name), BufText(b))
      decreases |ts| - i
    {
      NameHeld(list, ts, i);
      var cmp;
      ghost var k;
      cmp, k := StrCaseCmp(c.name, key, ts[i].name, b);
      if cmp == 0 {
        break;
      }
      StepAt(ts, list.child, i);
      i, c := i + 1, c.next;
    }
    FirstMatchIs(ts, BufText(b), i);
  }

  // cJSON_GetObjectItem
  method GetObjectItem(ghost lib: Library, list: Node, key: array?<byte>, ghost b: Buf, ghost ts: seq<Tree>)
    returns (c: Node?)
    requires Items(list, ts) && HoldsBuf(b, key) && OwnedAll(ts) <= lib.live
    ensures c == NodeAt(ts, FirstMatch(ts, BufText(b)))
  {
    var i;
    c, i := Find(lib, list, key, b, ts);
  }

  // cJSON_DetachItemFromObject: exactly the item that the lookup finds.
  method DetachItemFromObject(ghost lib: Library, list: Node, key: array?<byte>, ghost b: Buf, ghost ts: seq<Tree>)
    returns (c: Node?)
    requires Items(list, ts) && HoldsBuf(b, key) && OwnedAll(ts) <= lib.live
    modifies list`child, OwnedAll(ts)
    ensures var k := FirstMatch(ts, BufText(b));
            && c == NodeAt(ts, k) && Items(list, Rest(ts, k)) && OwnedAll(ts) == OwnedAll(Rest(ts, k)) + OwnedAt(ts, k)
            && OwnedAll(Rest(ts, k)) !! OwnedAt(ts, k)
            && (c != null ==> Loose(ts[k]) && c.next == null && c.prev == null)
  {
    hide FirstMatch, Items, FootAll, Loose;
    var i;
    c, i := Find(lib, list, key, b, ts);
    if c != null {
      NeighboursOwned(list, ts, i);
      c := DetachItemFromArray(lib, list, i, ts);
    }
  }

  lemma NeighboursOwned(list: Node, ts: seq<Tree>, k: nat)
    requires Items(list, ts) && k < |ts|
    ensures OneNode(NodeAt(ts, k)) + OneNode(PrevOf(ts, k)) + OneNode(NodeAt(ts, k + 1)) <= OwnedAll(ts)
    ensures OwnedAt(ts, k) <= OwnedAll(ts)
  {
    forall i | 0 <= i < |ts| ensures ts[i].node in OwnedAll(ts) {
      RootInFoot(ts, i, false);
    }
    RootInFoot(ts, k, false);
  }

  // cJSON_DeleteItemFromObject
  method DeleteItemFromObject(lib: Library, list: Node, key: array?<byte>, ghost b: Buf, ghost ts: seq<Tree>)
    requires Items(list, ts) && HoldsBuf(b, key) && OwnedAll(ts) <= lib.live && lib !in OwnedAll(ts)
    modifies lib`live, list`child, OwnedAll(ts)
    ensures var k := FirstMatch(ts, BufText(b));
            Items(list, Rest(ts, k)) && lib.live == old(lib.live) - OwnedAt(ts, k)
  {
    hide FirstMatch, Items, FootAll, Loose, Linked, TidyAll, HoldsAll;
    ItemsAre(list, ts);
    ghost var k := FirstMatch(ts, BufText(b));
    var c := DetachItemFromObject(lib, list, key, b, ts);
    if c == null {
      return;
    }
    FootOne(ts[k], false);
    DeleteLoose(lib, c, [ts[k]]);
  }

  // ---- Naming an item ----

  // item->string = cJSON_strdup(key), with the old name freed first if release. A failed copy
  // leaves the item without a name.
  method GiveName(lib: Library, item: Node, key: array<byte>, release: bool, ghost b: Buf, ghost t: Tree)
    returns (ghost nb: Buf)
    requires b.Buf? && HoldsBuf(b, key) && item == t.node && Loose(t) && Owned(t) <= lib.live && lib !in Owned(t)
    requires release ==> BufObjs(b) !! BufObjs(t.name)
    modifies lib`live, lib`faults, item`name, if release then BufObjs(t.name) else {}
    ensures Loose(t.(name := nb)) && fresh(BufObjs(nb))
      && Owned(t.(name := nb)) == {item} + BufObjs(nb) + Inner(t, false)
    ensures lib.live == old(lib.live) - (if release then BufObjs(t.name) else {}) + BufObjs(nb)
    ensures if nb.Buf? then nb.chars == b.chars && lib.faults == old(lib.faults)
            else !lib.reliable && lib.faults == old(lib.faults) + 1
  {
    hide Inner, Tidy, Holds;
    FootParts(t);
    if release && item.name != null {
      lib.FreeBytes(item.name);
    }
    var n := Composing.StrLen(key, b.chars);
    var copy := lib.StrDup(key[..n]);
    item.name := copy;
    nb := if copy == null then NoBuf else Buf(copy, b.chars);
    Renamed(t, nb);
  }

  lemma {:induction false} FootParts(t: Tree)
    ensures Owned(t) == {t.node} + BufObjs(t.name) + Inner(t, false)
    ensures Tidy(t) ==> t.node !in Inner(t, false) && BufObjs(t.name) !! Inner(t, false)
    ensures Holds(t, false) ==> HoldsBuf(t.name, t.node.name)
  {
  }

  // A new name on an item whose other fields and contents are as they were.
  twostate lemma {:induction false} Renamed(t: Tree, new nb: Buf)
    requires old(Holds(t, false)) && Tidy(t) && HoldsBuf(nb, t.node.name) && BufObjs(nb) !! Inner(t, false)
    requires SameButName(t.node)
    requires forall o :: o in Inner(t, false) ==> old(allocated(o)) && unchanged(o)
    ensures Loose(t.(name := nb)) && Inner(t.(name := nb), false) == Inner(t, false)
  {
    if Counts(t, false) {
      assert Inner(t, false) == BufObjs(t.text) + OwnedAll(t.kids);
      assert old(HoldsList(t.kids, t.node.child, false));
    }
  }

  twostate predicate SameButName(n: Node)
    reads n
  {
    && n.child == old(n.child) && n.typ == old(n.typ) && n.valuestring == old(n.valuestring)
    && n.valueint == old(n.valueint) && n.valuedouble == old(n.valuedouble)
  }

  ghost function NameOf(ts: seq<Tree>): set<object> {
    if |ts| == 0 then {} else BufObjs(ts[0].name)
  }

  // cJSON_AddItemToObject
  method AddItemToObject(lib: Library, list: Node, key: array<byte>, item: Node?, ghost b: Buf, ghost ts: seq<Tree>,
          ghost add: seq<Tree>)
    returns (ghost nb: Buf)
    requires Items(list, ts) && |add| <= 1 && item == NodeAt(add, 0) && b.Buf? && HoldsBuf(b, key)
    requires item != null ==> Loose(add[0]) && item.next == null && (|ts| == 0 ==> item.prev == null)
    requires OwnedAll(add) !! OwnedAll(ts) && list !in OwnedAll(add) && BufObjs(b) !! NameOf(add)
    requires OwnedAll(ts) + OwnedAll(add) <= lib.live && lib !in OwnedAll(ts) + OwnedAll(add)
    modifies lib`live, lib`faults, list`child, OneNode(item)`prev, OneNode(item)`name, OneNode(LastOf(ts))`next,
      NameOf(add)
    ensures item == null ==> Items(list, ts) && lib.live == old(lib.live)
    ensures item != null ==>
      && Items(list, ts + [add[0].(name := nb)]) && lib.live == old(lib.live) - BufObjs(add[0].name) + BufObjs(nb)
      && if nb.Buf? then fresh(nb.arr) && nb.chars == b.chars else !lib.reliable
  {
    hide Items, Foot, FootAll, Inner, Tidy, Holds, Linked, HoldsAll, TidyAll;
    nb := NoBuf;
    if item == null {
      return;
    }
    ItemsAre(list, ts);
    ghost var t := add[0];
    assert add == [t];
    FootOne(t, false);
    FootParts(t);
    nb := GiveName(lib, item, key, true, b, t);
    FootOne(t.(name := nb), false);
    AddItemToArray(lib, list, item, ts, [t.(name := nb)]);
  }

  // cJSON_ReplaceItemInObject. The name the new item had before is neither freed nor owned by
  // any item afterwards: it leaks.
  method ReplaceItemInObject(lib: Library, list: Node, key: array<byte>, newItem: Node, ghost b: Buf,
          ghost ts: seq<Tree>, ghost t: Tree)
    returns (ghost nb: Buf)
    requires Items(list, ts) && Loose(t) && newItem == t.node && b.Buf? && HoldsBuf(b, key)
    requires list !in Owned(t) && Owned(t) !! OwnedAll(ts) && OwnedAll(ts) + Owned(t) <= lib.live
    requires lib !in OwnedAll(ts) + Owned(t)
    modifies lib`live, lib`faults, list`child, newItem`next, newItem`prev, newItem`name, OwnedAll(ts)
    ensures var k := FirstMatch(ts, Some(b.chars));
            if k < |ts| then
              && Items(list, ts[k := t.(name := nb)]) && lib.live == old(lib.live) + BufObjs(nb) - Owned(ts[k])
              && BufObjs(t.name) <= lib.live && BufObjs(t.name) !! OwnedAll(ts[k := t.(name := nb)])
              && (if nb.Buf? then fresh(nb.arr) && nb.chars == b.chars else !lib.reliable)
            else
              Items(list, ts) && Loose(t) && lib.live == old(lib.live)
  {
    hide Items, Foot, FootAll, Inner, Tidy, Holds, Linked, HoldsAll, TidyAll, FirstMatch;
    nb := NoBuf;
    ItemsAre(list, ts);
    var c, i := Find(lib, list, key, b, ts);
    if c == null {
      return;
    }
    FootParts(t);
    nb := GiveName(lib, newItem, key, false, b, t);
    NeighboursOwned(list, ts, i);
    ReplaceItemInArray(lib, list, i, newItem, ts, t.(name := nb));
    OwnedUpdated(ts, i, t.(name := nb));
  }

  lemma OwnedUpdated(ts: seq<Tree>, k: nat, t: Tree)
    requires k < |ts|
    ensures OwnedAll(ts[k := t]) == OwnedAll(Without(ts, k)) + Owned(t) && OwnedAll(Without(ts, k)) <= OwnedAll(ts)
  {
    hide FootAll, Foot, TidyAll, HoldsAll, Tidy, Holds;
    Around(ts, k);
    Around(ts[k := t], k);
    WithoutUpdated(ts, k, t);
  }

  // ---- Lookup laws ----

  // The item a lookup of that name returns.
  function Lookup(ts: seq<Tree>, name: Option<bytes>): Node? {
    NodeAt(ts, FirstMatch(ts, name))
  }

  // An added item is found only if no earlier one answers to the name.
  lemma {:induction false} LookupAfterAdd(ts: seq<Tree>, t: Tree, name: Option<bytes>)
    ensures Lookup(ts + [t], name) ==
      if FirstMatch(ts, name) < |ts| then Lookup(ts, name) else if SameName(BufText(t.name), name) then t.node else null
  {
    var k := FirstMatch(ts, name);
    FirstMatchIs(ts + [t], name, if k < |ts| || SameName(BufText(t.name), name) then k else k + 1);
  }

  // Replacing by name puts the new item where every lookup found the old one.
  lemma {:induction false} LookupAfterReplace(ts: seq<Tree>, key: Option<bytes>, t: Tree, name: Option<bytes>)
    requires FirstMatch(ts, key) < |ts| && BufText(t.name) == key
    ensures var us := ts[FirstMatch(ts, key) := t];
            && FirstMatch(us, name) == FirstMatch(ts, name)
            && Lookup(us, name) == (if SameName(key, name) then t.node else Lookup(ts, name))
  {
    var k, m := FirstMatch(ts, key), FirstMatch(ts, name);
    var us := ts[k := t];
    assert forall i :: 0 <= i < |ts| && i != k ==> us[i] == ts[i];
    FirstMatchIs(us, name, m);
  }

  // Detaching by name removes the item the lookup finds: lookups of other names go on finding
  // what they found, and the name now finds the next item that answers to it.
  lemma {:induction false} LookupAfterDetach(ts: seq<Tree>, key: Option<bytes>, name: Option<bytes>)
    requires FirstMatch(ts, key) < |ts|
    ensures var k := FirstMatch(ts, key);
            Lookup(Without(ts, k), name) == if SameName(key, name) then Lookup(ts[k + 1..], name) else Lookup(ts, name)
  {
    hide FirstMatch;
    if SameName(key, name) {
      FirstMatchIs(ts, name, FirstMatch(ts, key));
      MatchAfterFirst(ts, FirstMatch(ts, key), name);
    } else {
      MatchAmongOthers(ts, FirstMatch(ts, key), name);
    }
  }

  lemma {:induction false} MatchAfterFirst(ts: seq<Tree>, k: nat, name: Option<bytes>)
    requires k < |ts| && k == FirstMatch(ts, name)
    ensures Lookup(Without(ts, k), name) == Lookup(ts[k + 1..], name)
  {
    hide FirstMatch, SameName;
    var us, rest := Without(ts, k), ts[k + 1..];
    assert forall i :: 0 <= i < k ==> us[i] == ts[i];
    assert forall i :: k <= i < |us| ==> us[i] == rest[i - k];
    FirstMatchIs(us, name, k + FirstMatch(rest, name));
  }

  lemma {:induction false} MatchAmongOthers(ts: seq<Tree>, k: nat, name: Option<bytes>)
    requires k < |ts| && k != FirstMatch(ts, name) && !SameName(BufText(ts[k].name), name)
    ensures Lookup(Without(ts, k), name) == Lookup(ts, name)
  {
    hide FirstMatch, SameName;
    var us, m := Without(ts, k), FirstMatch(ts, name);
    assert forall i :: 0 <= i < k ==> us[i] == ts[i];
    assert forall i :: k <= i < |us| ==> us[i] == ts[i + 1];
    FirstMatchIs(us, name, if m < k then m else m - 1);
  }
}
