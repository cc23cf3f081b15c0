// The list editors over owned items. Each refines an operation on the sequence of the items;
// its modifies clause says which links it rewrites, so everything else is unchanged.
module Editors {
  import opened Memory
  import opened Trees
  import opened Lists
  import Deleting

  // The items that hang from list, each owned once.
  ghost predicate Items(list: Node, ts: seq<Tree>)
    reads list, OwnedAll(ts)
  {
    HoldsList(ts, list.child, false) && TidyAll(ts) && list !in OwnedAll(ts)
  }

  // An item with what it owns, whatever its links are.
  ghost predicate Loose(t: Tree)
    reads Owned(t)
  {
    Holds(t, false) && Tidy(t)
  }

  lemma {:induction false} ItemsAre(list: Node, ts: seq<Tree>)
    ensures Items(list, ts) <==>
      Linked(Roots(ts), list.child) && HoldsAll(ts, false) && TidyAll(ts) && list !in OwnedAll(ts)
    ensures forall n :: n in Roots(ts) ==> n in OwnedAll(ts)
  {
    hide Linked, FootAll, TidyAll, HoldsAll;
    RootsInFoot(ts, false);
  }

  lemma {:induction false} Around(ts: seq<Tree>, k: nat)
    requires k < |ts|
    ensures OwnedAll(ts) == OwnedAll(Without(ts, k)) + Owned(ts[k])
    ensures HoldsAll(ts, false) <==> HoldsAll(Without(ts, k), false) && Holds(ts[k], false)
    ensures TidyAll(ts) <==> TidyAll(Without(ts, k)) && Tidy(ts[k]) && OwnedAll(Without(ts, k)) !! Owned(ts[k])
  {
    hide FootAll, Foot, TidyAll, HoldsAll, Tidy, Holds;
    var a, b, t := ts[..k], ts[k + 1..], ts[k];
    assert ts == a + ([t] + b);
    FootConcat(a, [t] + b, false);
    FootConcat([t], b, false);
    FootConcat(a, b, false);
    HoldsConcat(a, [t] + b, false);
    HoldsConcat([t], b, false);
    HoldsConcat(a, b, false);
    TidyConcat(a, [t] + b);
    TidyConcat([t], b);
    TidyConcat(a, b);
    FootOne(t, false);
    AllOne(t, false);
  }

  lemma WithoutUpdated(ts: seq<Tree>, k: nat, t: Tree)
    requires k < |ts|
    ensures Without(ts[k := t], k) == Without(ts, k) && ts[k := t][k] == t
    ensures Roots(ts[k := t]) == Roots(ts)[k := t.node] && Roots(Without(ts, k)) == Without(Roots(ts), k)
  {
  }

  // cJSON_GetArraySize
  method GetArraySize(list: Node, ghost ts: seq<Tree>) returns (n: nat)
    requires Items(list, ts)
    ensures n == |ts|
  {
    ItemsAre(list, ts);
    n := Count(list.child, ts);
  }

  // cJSON_GetArrayItem
  method GetArrayItem(list: Node, item: int, ghost ts: seq<Tree>) returns (c: Node?)
    requires Items(list, ts)
    ensures c == NodeAt(ts, Index(item))
  {
    ItemsAre(list, ts);
    c := Walk(list.child, item, ts);
  }

  ghost function LastOf(ts: seq<Tree>): Node? {
    if |ts| == 0 then null else ts[|ts| - 1].node
  }

  // cJSON_AddItemToArray; add is the item as a list, empty for a null pointer.
  method AddItemToArray(ghost lib: Library, list: Node, item: Node?, ghost ts: seq<Tree>, ghost add: seq<Tree>)
    requires Items(list, ts) && |add| <= 1 && item == NodeAt(add, 0)
    requires item != null ==> Loose(add[0]) && item.next == null && (|ts| == 0 ==> item.prev == null)
    requires OwnedAll(add) !! OwnedAll(ts) && list !in OwnedAll(add) && OwnedAll(ts) + OwnedAll(add) <= lib.live
    modifies list`child, OneNode(item)`prev, OneNode(LastOf(ts))`next
    ensures Items(list, ts + add)
  {
    hide FootAll, TidyAll, HoldsAll, Items, Linked, Foot, Tidy, Holds;
    ItemsAre(list, ts);
    if item == null {
      assert ts + add == ts;
      return;
    }
    ghost var t := add[0];
    assert add == [t];
    Added(ts, t);
    FootOne(t, false);
    NodeOwned(t);
    if list.child == null {
      FirstAt(ts, list.child);
      list.child := item;
      assert ts + [t] == [t] && Roots([t]) == [item];
      OnlyOne(item);
    } else {
      var c := Last(list.child, ts);
      SuffixObject(c, item, Roots(ts), list.child);
    }
    HoldsRelinked(ts);
    HoldsKept(t);
    ItemsAre(list, ts + add);
    Added(ts, t);
  }

  lemma NodeOwned(t: Tree)
    ensures t.node in Owned(t)
  {
  }

  lemma OnlyOne(n: Node)
    requires n.next == null && n.prev == null
    ensures Linked([n], n)
  {
  }

  lemma {:induction false} Added(ts: seq<Tree>, t: Tree)
    ensures Roots(ts + [t]) == Roots(ts) + [t.node]
    ensures OwnedAll(ts + [t]) == OwnedAll(ts) + Owned(t)
    ensures HoldsAll(ts + [t], false) <==> HoldsAll(ts, false) && Holds(t, false)
    ensures TidyAll(ts + [t]) <==> TidyAll(ts) && Tidy(t) && OwnedAll(ts) !! Owned(t)
  {
    hide FootAll, Foot, TidyAll, HoldsAll, Tidy, Holds;
    FootConcat(ts, [t], false);
    HoldsConcat(ts, [t], false);
    TidyConcat(ts, [t]);
    FootOne(t, false);
    AllOne(t, false);
  }

  ghost function PrevOf(ts: seq<Tree>, k: nat): Node? {
    if 0 < k < |ts| then ts[k - 1].node else null
  }

  // The items that stay when the k-th is taken out, if there is one.
  ghost function Rest(ts: seq<Tree>, k: nat): seq<Tree> {
    if k < |ts| then Without(ts, k) else ts
  }

  ghost function OwnedAt(ts: seq<Tree>, k: nat): set<object> {
    if k < |ts| then Owned(ts[k]) else {}
  }

  // cJSON_DetachItemFromArray
  method DetachItemFromArray(ghost lib: Library, list: Node, which: int, ghost ts: seq<Tree>) returns (c: Node?)
    requires Items(list, ts) && OwnedAll(ts) <= lib.live
    modifies list`child, OneNode(NodeAt(ts, Index(which)))`next, OneNode(NodeAt(ts, Index(which)))`prev
    modifies OneNode(PrevOf(ts, Index(which)))`next, OneNode(NodeAt(ts, Index(which) + 1))`prev
    ensures c == NodeAt(ts, Index(which)) && Items(list, Rest(ts, Index(which)))
    ensures c != null ==> Loose(ts[Index(which)]) && c.next == null && c.prev == null
    ensures OwnedAll(ts) == OwnedAll(Rest(ts, Index(which))) + OwnedAt(ts, Index(which))
    ensures OwnedAll(Rest(ts, Index(which))) !! OwnedAt(ts, Index(which))
  {
    hide FootAll, TidyAll, HoldsAll, Items, Linked, Foot, Tidy, Holds;
    ItemsAre(list, ts);
    c := Walk(list.child, which, ts);
    if c == null {
      return;
    }
    ghost var k := Index(which);
    Around(ts, k);
    Unlink(list, c, Roots(ts), k);
    HoldsRelinked(ts);
    Around(ts, k);
    WithoutUpdated(ts, k, ts[k]);
    ItemsAre(list, Without(ts, k));
  }

  // cJSON_DeleteItemFromArray
  method DeleteItemFromArray(lib: Library, list: Node, which: int, ghost ts: seq<Tree>)
    requires Items(list, ts) && OwnedAll(ts) <= lib.live && lib !in OwnedAll(ts)
    modifies lib`live, list`child, OwnedAt(ts, Index(which))
    modifies OneNode(PrevOf(ts, Index(which)))`next, OneNode(NodeAt(ts, Index(which) + 1))`prev
    ensures Items(list, Rest(ts, Index(which)))
    ensures lib.live == old(lib.live) - OwnedAt(ts, Index(which))
  {
    hide FootAll, Items, Foot, Loose, Linked, TidyAll, HoldsAll;
    ItemsAre(list, ts);
    if Index(which) < |ts| {
      NodeOwned(ts[Index(which)]);
    }
    var c := DetachItemFromArray(lib, list, which, ts);
    if c == null {
      return;
    }
    FootOne(ts[Index(which)], false);
    DeleteLoose(lib, c, [ts[Index(which)]]);
  }

  // cJSON_Delete of a detached item, or of a null pointer.
  method DeleteLoose(lib: Library, c: Node?, ghost ts: seq<Tree>)
    requires |ts| <= 1 && c == NodeAt(ts, 0) && (c != null ==> Loose(ts[0]) && c.next == null)
    requires OwnedAll(ts) <= lib.live && lib !in OwnedAll(ts)
    modifies lib`live, OwnedAll(ts)
    ensures lib.live == old(lib.live) - OwnedAll(ts)
  {
    if |ts| == 1 {
      assert ts == [ts[0]];
      AllOne(ts[0], false);
    }
    Deleting.Delete(lib, c, ts);
  }

  // cJSON_ReplaceItemInArray: the old item is deleted; past the end nothing happens at all.
  method ReplaceItemInArray(lib: Library, list: Node, which: int, newItem: Node, ghost ts: seq<Tree>, ghost t: Tree)
    requires Items(list, ts) && Loose(t) && newItem == t.node && list !in Owned(t) && Owned(t) !! OwnedAll(ts)
    requires OwnedAll(ts) + Owned(t) <= lib.live && lib !in OwnedAll(ts) && lib !in Owned(t)
    modifies lib`live, list`child, newItem`next, newItem`prev, OwnedAt(ts, Index(which))
    modifies OneNode(PrevOf(ts, Index(which)))`next, OneNode(NodeAt(ts, Index(which) + 1))`prev
    ensures var k := Index(which); Items(list, if k < |ts| then ts[k := t] else ts)
    ensures Loose(t) && lib.live == old(lib.live) - OwnedAt(ts, Index(which))
  {
    hide FootAll, TidyAll, HoldsAll, Items, Linked, Foot, Tidy, Holds;
    ItemsAre(list, ts);
    var c := Walk(list.child, which, ts);
    if c == null {
      return;
    }
    ghost var k := Index(which);
    Around(ts, k);
    NodeOwned(t);
    NodeOwned(ts[k]);
    SwapIn(list, c, newItem, Roots(ts), k);
    HoldsRelinked(ts);
    HoldsKept(t);
    Around(ts, k);
    WithoutUpdated(ts, k, t);
    Around(ts[k := t], k);
    ItemsAre(list, ts[k := t]);
    FootOne(ts[k], false);
    DeleteLoose(lib, c, [ts[k]]);
  }

  // ---- What the edits mean ----

  // On the values and the named members of a list the edits are the sequence operations.
  lemma {:induction false} EditsMean(ts: seq<Tree>, k: nat, t: Tree)
    ensures ToItems(ts + [t]) == ToItems(ts) + [ToJson(t)] && ToMembers(ts + [t]) == ToMembers(ts) + [ToMember(t)]
    ensures k < |ts| ==> && ToItems(Without(ts, k)) == Without(ToItems(ts), k)
                         && ToMembers(Without(ts, k)) == Without(ToMembers(ts), k)
                         && ToItems(ts[k := t]) == ToItems(ts)[k := ToJson(t)]
                         && ToMembers(ts[k := t]) == ToMembers(ts)[k := ToMember(t)]
  {
    hide ToItems, ToMembers, ToJson;
    ItemsConcat(ts, [t]);
    AllOne(t, false);
    if k < |ts| {
      EditedAt(ts, k, t);
    }
  }

  lemma {:induction false} EditedAt(ts: seq<Tree>, k: nat, t: Tree)
    requires k < |ts|
    ensures ToItems(Without(ts, k)) == Without(ToItems(ts), k) && ToMembers(Without(ts, k)) == Without(ToMembers(ts), k)
    ensures ToItems(ts[k := t]) == ToItems(ts)[k := ToJson(t)]
      && ToMembers(ts[k := t]) == ToMembers(ts)[k := ToMember(t)]
  {
    hide ToJson, ToMember;
    var us, vs := Without(ts, k), ts[k := t];
    forall i | 0 <= i < |ts|
      ensures ToItems(ts)[i] == ToJson(ts[i]) && ToMembers(ts)[i] == ToMember(ts[i])
      ensures ToItems(vs)[i] == ToJson(vs[i]) && ToMembers(vs)[i] == ToMember(vs[i])
    {
      ItemAt(ts, i, false);
      ItemAt(vs, i, false);
    }
    forall i | 0 <= i < |us| ensures ToItems(us)[i] == ToJson(us[i]) && ToMembers(us)[i] == ToMember(us[i]) {
      ItemAt(us, i, false);
    }
  }

  // An item that is no reference owns the edited list as it owned the list before: the edits
  // change the child of the item at most.
  twostate lemma Enclosing(t: Tree, new kids: seq<Tree>)
    requires old(Loose(t)) && !IsRef(t.typ) && Items(t.node, kids)
    requires t.node.typ == t.typ && t.node.valueint == t.ival && t.node.valuedouble == t.num
    requires t.node.name == old(t.node.name) && t.node.valuestring == old(t.node.valuestring)
    requires BufObjs(t.name) + BufObjs(t.text) !! OwnedAll(kids)
    requires forall o :: o in BufObjs(t.name) + BufObjs(t.text) ==> old(allocated(o)) && unchanged(o)
    ensures Loose(t.(kids := kids)) && Owned(t.(kids := kids)) == {t.node} + BufObjs(t.name) + BufObjs(t.text)
      + OwnedAll(kids)
  {
    hide HoldsAll, TidyAll, FootAll, Linked;
    var u := t.(kids := kids);
    assert Inner(u, false) == BufObjs(t.text) + OwnedAll(kids);
    assert Tidy(t) && Inner(t, false) == BufObjs(t.text) + OwnedAll(t.kids);
  }
}
