// cJSON_Delete: each object the list owns is freed exactly once, and nothing else is.
module Deleting {
  import opened Lists
  import opened Memory

  ghost function RootSet(ts: seq<Tree>): set<object> {
    set i | 0 <= i < |ts| :: ts[i].node
  }

  // The nodes of ts, followed along next alone, form a list; prev is never looked at.
  ghost predicate Chained(ts: seq<Tree>)
    reads RootSet(ts)
  {
    |ts| == 0 || (ts[0].node.next == NodeAt(ts[1..], 0) && Chained(ts[1..]))
  }

  lemma RootSetInFoot(ts: seq<Tree>)
    ensures RootSet(ts) <= OwnedAll(ts)
  {
    forall i | 0 <= i < |ts| ensures ts[i].node in OwnedAll(ts) {
      RootInFoot(ts, i, false);
    }
  }

  lemma {:induction false} LinkedIsChained(ts: seq<Tree>, k: nat)
    requires k <= |ts| && Linked(Roots(ts), NodeAt(ts, 0))
    ensures Chained(ts[k..])
    decreases |ts| - k
  {
    if k < |ts| {
      LinkedIsChained(ts, k + 1);
      assert ts[k..][1..] == ts[k + 1..];
      assert Roots(ts)[k].next == NextIn(Roots(ts), k);
    }
  }

  // Frees the list that starts at c: of each node its children and its text, unless the node
  // is a reference, then its name and the node itself.
  method Delete(lib: Library, c: Node?, ghost ts: seq<Tree>)
    requires c == NodeAt(ts, 0) && Chained(ts) && HoldsAll(ts, false) && TidyAll(ts)
    requires OwnedAll(ts) <= lib.live && lib !in OwnedAll(ts)
    modifies lib`live, OwnedAll(ts)
    ensures lib.live == old(lib.live) - OwnedAll(ts)
    decreases ts
  {
    var cur := c;
    ghost var rest := ts;
    while cur != null
      invariant cur == NodeAt(rest, 0) && Chained(rest) && HoldsAll(rest, false) && TidyAll(rest)
      invariant OwnedAll(rest) <= OwnedAll(ts) && OwnedAll(rest) <= lib.live
      invariant lib.live == old(lib.live) - (OwnedAll(ts) - OwnedAll(rest))
      invariant |rest| <= |ts| && rest == ts[|ts| - |rest|..]
      decreases |rest|
    {
      var next := cur.next;
      RootSetInFoot(rest[1..]);
      DeleteOne(lib, cur, rest[0]);
      rest := rest[1..];
      cur := next;
    }
  }

  method DeleteOne(lib: Library, c: Node, ghost t: Tree)
    requires c == t.node && Holds(t, false) && Tidy(t)
    requires Owned(t) <= lib.live && lib !in Owned(t)
    modifies lib`live, Owned(t)
    ensures lib.live == old(lib.live) - Owned(t)
    decreases t
  {
    if !IsRef(c.typ) && c.child != null {
      assert HoldsList(t.kids, c.child, false);
      LinkedIsChained(t.kids, 0);
      assert t.kids[0..] == t.kids;
      Delete(lib, c.child, t.kids);
    }
    if !IsRef(c.typ) && c.valuestring != null {
      lib.FreeBytes(c.valuestring);
    }
    if c.name != null {
      lib.FreeBytes(c.name);
    }
    lib.FreeNode(c);
  }
}
