// The pointer surgery of the list editors: walking, appending, unlinking and swapping nodes.
module Lists {
  import opened Memory

  // Hang item behind the last node of a list.
  method SuffixObject(prev: Node, item: Node, ghost ns: seq<Node>, ghost first: Node?)
    requires |ns| > 0 && prev == ns[|ns| - 1] && Linked(ns, first)
    requires item !in ns && item.next == null
    modifies prev`next, item`prev
    ensures Linked(ns + [item], first)
  {
    prev.next := item;
    item.prev := prev;
    ghost var ms := ns + [item];
    assert forall i :: 0 <= i < |ns| ==> ms[i] == ns[i];
    forall i | 0 <= i < |ms| ensures ms[i].next == NextIn(ms, i) && ms[i].prev == PrevIn(ms, i) {
      if i < |ns| {
        assert ns[i].prev == PrevIn(ns, i);
        assert i < |ns| - 1 ==> ns[i].next == NextIn(ns, i);
      }
    }
  }

  function NodeAt(ts: seq<Tree>, i: nat): Node? {
    if i < |ts| then ts[i].node else null
  }

  lemma FirstAt(ts: seq<Tree>, first: Node?)
    requires Linked(Roots(ts), first)
    ensures first == NodeAt(ts, 0)
  {
  }

  lemma StepAt(ts: seq<Tree>, first: Node?, i: nat)
    requires Linked(Roots(ts), first) && i < |ts|
    ensures ts[i].node.next == NodeAt(ts, i + 1)
  {
    assert Roots(ts)[i].next == NextIn(Roots(ts), i);
  }

  // The loop that counts the nodes of a list.
  method Count(first: Node?, ghost ts: seq<Tree>) returns (n: nat)
    requires Linked(Roots(ts), first)
    ensures n == |ts|
  {
    var child := first;
    n := 0;
    while child != null
      invariant n <= |ts| && child == NodeAt(ts, n)
      decreases |ts| - n
    {
      StepAt(ts, first, n);
      n, child := n + 1, child.next;
    }
  }

  // An index as the editors read it: everything below one means the head.
  function Index(which: int): nat {
    if which > 0 then which else 0
  }

  // The loop that walks to an index; null when the list is too short.
  method Walk(first: Node?, which: int, ghost ts: seq<Tree>) returns (c: Node?)
    requires Linked(Roots(ts), first)
    ensures c == NodeAt(ts, Index(which))
  {
    c := first;
    var left := which;
    ghost var i := 0;
    while c != null && left > 0
      invariant i <= |ts| && c == NodeAt(ts, i) && Index(which) == i + Index(left)
      decreases left
    {
      StepAt(ts, first, i);
      c, left := c.next, left - 1;
      i := i + 1;
    }
  }

  // The loop that walks to the last node.
  method Last(first: Node, ghost ts: seq<Tree>) returns (c: Node)
    requires Linked(Roots(ts), first)
    ensures |ts| > 0 && c == ts[|ts| - 1].node
  {
    FirstAt(ts, first);
    c := first;
    ghost var i := 0;
    while c.next != null
      invariant i < |ts| && c == ts[i].node
      decreases |ts| - i
    {
      StepAt(ts, first, i);
      c := c.next;
      i := i + 1;
    }
    StepAt(ts, first, i);
  }

  function Without<T>(s: seq<T>, k: nat): seq<T>
    requires k < |s|
  {
    s[..k] + s[k + 1..]
  }

  ghost function OneNode(n: Node?): set<Node> {
    if n == null then {} else {n}
  }

  // Take the k-th node out of the list that hangs from list.
  method Unlink(list: Node, c: Node, ghost ns: seq<Node>, ghost k: nat)
    requires k < |ns| && c == ns[k] && Linked(ns, list.child)
    modifies list`child, c`next, c`prev, OneNode(PrevIn(ns, k))`next, OneNode(NextIn(ns, k))`prev
    ensures Linked(Without(ns, k), list.child) && c.next == null && c.prev == null
  {
    LinkedAt(ns, list.child, k);
    if c.prev != null {
      c.prev.next := c.next;
    }
    if c.next != null {
      c.next.prev := c.prev;
    }
    if c == list.child {
      list.child := c.next;
    }
    c.prev, c.next := null, null;
    Closed(ns, k, list.child);
  }

  lemma LinkedAt(ns: seq<Node>, first: Node?, k: nat)
    requires k < |ns| && Linked(ns, first)
    ensures ns[k].next == NextIn(ns, k) && ns[k].prev == PrevIn(ns, k) && (ns[k] == first <==> k == 0)
  {
  }

  // The neighbours of the k-th node are linked to each other, the other nodes as in ns.
  lemma Closed(ns: seq<Node>, k: nat, first: Node?)
    requires k < |ns| && first == if k == 0 then NextIn(ns, k) else ns[0]
    requires forall i, j :: 0 <= i < j < |ns| ==> ns[i] != ns[j]
    requires forall i :: 0 <= i < |ns| && i != k ==> ns[i].next == if i + 1 == k then NextIn(ns, k) else NextIn(ns, i)
    requires forall i :: 0 <= i < |ns| && i != k ==> ns[i].prev == if i == k + 1 then PrevIn(ns, k) else PrevIn(ns, i)
    ensures Linked(Without(ns, k), first)
  {
    var ms := Without(ns, k);
    forall i | 0 <= i < |ms| ensures ms[i].next == NextIn(ms, i) && ms[i].prev == PrevIn(ms, i) {
      WithoutAt(ns, k, i);
    }
    forall i, j | 0 <= i < j < |ms| ensures ms[i] != ms[j] {
      WithoutAt(ns, k, i);
      WithoutAt(ns, k, j);
    }
  }

  lemma WithoutAt(ns: seq<Node>, k: nat, i: nat)
    requires k < |ns| && i + 1 < |ns|
    ensures var ms, j := Without(ns, k), if i < k then i else i + 1;
            && ms[i] == ns[j]
            && NextIn(ms, i) == (if j + 1 == k then NextIn(ns, k) else NextIn(ns, j))
            && PrevIn(ms, i) == (if j == k + 1 then PrevIn(ns, k) else PrevIn(ns, j))
  {
  }

  // Put newItem in the place of the k-th node.
  method SwapIn(list: Node, c: Node, newItem: Node, ghost ns: seq<Node>, ghost k: nat)
    requires k < |ns| && c == ns[k] && Linked(ns, list.child) && newItem !in ns
    modifies list`child, newItem`next, newItem`prev, c`next, c`prev, OneNode(PrevIn(ns, k))`next,
      OneNode(NextIn(ns, k))`prev
    ensures Linked(ns[k := newItem], list.child) && c.next == null && c.prev == null
  {
    LinkedAt(ns, list.child, k);
    newItem.next := c.next;
    newItem.prev := c.prev;
    if newItem.next != null {
      newItem.next.prev := newItem;
    }
    if c == list.child {
      list.child := newItem;
    } else {
      newItem.prev.next := newItem;
    }
    c.next, c.prev := null, null;
    Replaced(ns, k, newItem, list.child);
  }

  // The neighbours of the k-th node are linked to newItem and newItem to them.
  lemma Replaced(ns: seq<Node>, k: nat, newItem: Node, first: Node?)
    requires k < |ns| && newItem !in ns && first == if k == 0 then newItem else ns[0]
    requires newItem.next == NextIn(ns, k) && newItem.prev == PrevIn(ns, k)
    requires forall i, j :: 0 <= i < j < |ns| ==> ns[i] != ns[j]
    requires forall i :: 0 <= i < |ns| && i != k ==> ns[i].next == if i + 1 == k then newItem else NextIn(ns, i)
    requires forall i :: 0 <= i < |ns| && i != k ==> ns[i].prev == if i == k + 1 then newItem else PrevIn(ns, i)
    ensures Linked(ns[k := newItem], first)
  {
    var ms := ns[k := newItem];
    forall i | 0 <= i < |ms| ensures ms[i].next == NextIn(ms, i) && ms[i].prev == PrevIn(ms, i) {
      SwappedAt(ns, k, newItem, i);
    }
    forall i, j | 0 <= i < j < |ms| ensures ms[i] != ms[j] {
      assert ms[i] == (if i == k then newItem else ns[i]) && ms[j] == if j == k then newItem else ns[j];
    }
  }

  lemma SwappedAt(ns: seq<Node>, k: nat, newItem: Node, i: nat)
    requires k < |ns| && i < |ns|
    ensures NextIn(ns[k := newItem], i) == if i + 1 == k then newItem else NextIn(ns, i)
    ensures PrevIn(ns[k := newItem], i) == if i == k + 1 then newItem else PrevIn(ns, i)
    ensures ns[k := newItem][i] == if i == k then newItem else ns[i]
  {
  }
}
